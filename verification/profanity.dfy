/**
 * `ProfanityFilter` of conundrum/utils/profanity_filter.py.
 *
 * Each rule's "match" text is turned into a regular expression (`*` is a
 * wildcard, `|` separates alternatives, everything else is literal). Then
 * `check` reports the first match of every rule not vetoed by one of its
 * exceptions, and `censor` masks the union of all such matches.
 *
 * Regular-expression matching is a library call and is a parameter here: a
 * `Finder` gives, for a pattern and a text, the spans that `finditer` would
 * yield with `re.IGNORECASE`; `search` is its first span.
 */
module Profanity {
  import opened Common

  /** A rule as loaded from JSON. `matchText` and `severity` are `None` when
      the key is missing; `tags` and `exceptions` are empty when missing;
      `partialMatch` is `str()` of the "partial_match" value when present. */
  datatype Rule = Rule(id: Option<string>, matchText: Option<string>, severity: Option<int>,
                       tags: seq<string>, partialMatch: Option<string>, exceptions: seq<string>)

  /** A rule with its compiled pattern and compiled exception patterns. */
  datatype Compiled = Compiled(rule: Rule, pattern: string, exceptions: seq<string>)

  /** A match: the half-open range `[start, end)` of the text. */
  datatype Span = Span(start: int, end: int)

  datatype Violation = Violation(id: Option<string>, severity: Option<int>, tags: seq<string>,
                                 matched: string, ruleMatch: Option<string>)

  /** `finditer(pattern, text)` with `re.IGNORECASE`, as a list of spans. */
  type Finder = (string, string) -> seq<Span>

  /** What the regex library guarantees: every match lies within the text. */
  ghost predicate Sound(find: Finder)
  {
    forall p, t, sp :: sp in find(p, t) ==> 0 <= sp.start <= sp.end <= |t|
  }

  /** The three rules used when none are given. */
  const DefaultRules: seq<Rule> := [
    Rule(Some("default-1"), Some("fuck"), Some(3), ["swear"], Some("true"), []),
    Rule(Some("default-2"), Some("shit"), Some(3), ["swear"], Some("true"), []),
    Rule(Some("default-3"), Some("bitch"), Some(2), ["insult"], Some("true"), [])
  ]

  // ---------------------------------------------------------------------------
  // _wildcard_to_regex
  // ---------------------------------------------------------------------------

  /** The characters `re.escape` puts a backslash in front of. */
  predicate Special(c: char)
  {
    || c == '(' || c == ')' || c == '[' || c == ']' || c == '{' || c == '}'
    || c == '?' || c == '*' || c == '+' || c == '-' || c == '|' || c == '^'
    || c == '$' || c == '\\' || c == '.' || c == '&' || c == '~' || c == '#'
    || c == ' ' || c == '\t' || c == '\n' || c == '\r' || c == '\U{0B}' || c == '\U{0C}'
  }

  function EscapeChar(c: char): (r: string)
    ensures r != [] && r[0] != '|' && r[0] != '*'
  {
    if Special(c) then ['\\', c] else [c]
  }

  /** `re.escape`. */
  function Escape(s: string): (r: string)
    ensures |s| <= |r| <= 2 * |s|
    ensures r != [] ==> r[0] != '|'
  {
    if s == [] then [] else EscapeChar(s[0]) + Escape(s[1..])
  }

  /** `str.replace`: occurrences of `pat` found left to right, without
      overlap, and replaced; the replacement is not scanned again. */
  function Replace(s: string, pat: string, rep: string): (r: string)
    requires |pat| > 0
    ensures |s| < |pat| ==> r == s
    decreases |s|
  {
    if |s| < |pat| then s
    else if s[..|pat|] == pat then rep + Replace(s[|pat|..], pat, rep)
    else [s[0]] + Replace(s[1..], pat, rep)
  }

  /** `_wildcard_to_regex`. */
  function WildcardToRegex(s: string): (r: string)
  {
    if s == "" then ""
    else Replace(Replace(Escape(Strip(s)), "\\|", "|"), "\\*", ".*")
  }

  /** Reference translation of one character: `*` matches anything, `|` is
      alternation, any other character stands for itself. */
  function TranslateChar(c: char): (r: string)
    ensures c == '*' ==> r == ".*"
    ensures c == '|' ==> r == "|"
    ensures c != '*' && c != '|' ==> r == (if Special(c) then ['\\', c] else [c])
  {
    if c == '*' then ".*" else if c == '|' then "|" else EscapeChar(c)
  }

  function Translate(s: string): (r: string)
    ensures s == [] <==> r == []
  {
    if s == [] then [] else TranslateChar(s[0]) + Translate(s[1..])
  }

  /** The intermediate text after the first replacement. */
  function Unpiped(s: string): (r: string)
    ensures r != [] ==> r[0] != '*'
  {
    if s == [] then [] else (if s[0] == '|' then "|" else EscapeChar(s[0])) + Unpiped(s[1..])
  }

  lemma ReplaceHit(pat: string, rep: string, t: string)
    requires |pat| > 0
    ensures Replace(pat + t, pat, rep) == rep + Replace(t, pat, rep)
  {
    assert (pat + t)[..|pat|] == pat;
    assert (pat + t)[|pat|..] == t;
  }

  lemma ReplaceMiss(x: char, t: string, pat: string, rep: string)
    requires |pat| == 2
    requires x != pat[0] || t == [] || t[0] != pat[1]
    ensures Replace([x] + t, pat, rep) == [x] + Replace(t, pat, rep)
  {
    var s := [x] + t;
    assert s[1..] == t;
    if |s| >= 2 {
      assert s[..2] != pat by { assert s[..2][0] == x && s[..2][1] == t[0]; }
    }
  }

  /** Replacing an escaped special character `d` (a two-character pattern)
      in one escaped character followed by text that does not start with `d`:
      the character is replaced when it is `d` and kept otherwise. */
  lemma EscapedReplace(c: char, e: string, pat: string, rep: string)
    requires |pat| == 2 && pat[0] == '\\' && Special(pat[1])
    requires e == [] || e[0] != pat[1]
    ensures Replace(EscapeChar(c) + e, pat, rep)
            == (if c == pat[1] then rep else EscapeChar(c)) + Replace(e, pat, rep)
  {
    if c == pat[1] {
      assert EscapeChar(c) == pat;
      ReplaceHit(pat, rep, e);
    } else if Special(c) {
      assert ['\\', c] + e == [('\\')] + ([c] + e);
      ReplaceMiss(c, e, pat, rep);
      ReplaceMiss('\\', [c] + e, pat, rep);
    } else {
      ReplaceMiss(c, e, pat, rep);
    }
  }

  lemma {:induction false} EscapeUnpipe(s: string)
    ensures Replace(Escape(s), "\\|", "|") == Unpiped(s)
  {
    if s != [] {
      EscapeUnpipe(s[1..]);
      EscapedReplace(s[0], Escape(s[1..]), "\\|", "|");
    }
  }

  /** The second replacement on one character of the intermediate text
      followed by more of it (which never starts with `*`). */
  lemma StarChar(c: char, u: string)
    requires u == [] || u[0] != '*'
    ensures Replace((if c == '|' then "|" else EscapeChar(c)) + u, "\\*", ".*")
            == TranslateChar(c) + Replace(u, "\\*", ".*")
  {
    if c == '|' {
      ReplaceMiss(c, u, "\\*", ".*");
    } else {
      EscapedReplace(c, u, "\\*", ".*");
    }
  }

  lemma {:induction false} UnpipeStar(s: string)
    ensures Replace(Unpiped(s), "\\*", ".*") == Translate(s)
  {
    if s != [] {
      UnpipeStar(s[1..]);
      StarChar(s[0], Unpiped(s[1..]));
    }
  }

  /** `_wildcard_to_regex` returns "" for the empty pattern and otherwise
      translates the stripped pattern character by character: `*` becomes
      `.*`, `|` stays a bare alternation, every other special character is
      escaped and the rest is kept. */
  lemma WildcardTranslates(s: string)
    ensures WildcardToRegex(s) == if s == "" then "" else Translate(Strip(s))
  {
    if s != "" {
      EscapeUnpipe(Strip(s));
      UnpipeStar(Strip(s));
    }
  }

  // ---------------------------------------------------------------------------
  // _compile
  // ---------------------------------------------------------------------------

  /** Whether a rule matches inside words: unless "partial_match", lower-cased,
      reads "false" (missing means "true"). */
  predicate IsPartial(r: Rule)
  {
    Lower(if r.partialMatch.Some? then r.partialMatch.value else "true") != "false"
  }

  /** A rule is whole-word exactly when its "partial_match" is "false" in any
      mix of upper and lower case. */
  lemma WholeWordExactly(r: Rule)
    ensures !IsPartial(r) <==>
      && r.partialMatch.Some? && |r.partialMatch.value| == 5
      && forall k :: 0 <= k < 5 ==> r.partialMatch.value[k] == "false"[k] || r.partialMatch.value[k] == "FALSE"[k]
  {
    var v := if r.partialMatch.Some? then r.partialMatch.value else "true";
    var lv := Lower(v);
    assert |lv| == |v|;
    if |v| == 5 {
      forall k | 0 <= k < 5 ensures lv[k] == "false"[k] <==> v[k] == "false"[k] || v[k] == "FALSE"[k] {
      }
      assert lv == "false" <==> forall k :: 0 <= k < 5 ==> lv[k] == "false"[k];
    }
  }

  /** The rule's "match" text, "" when missing. */
  function Raw(r: Rule): (s: string)
    ensures r.matchText.None? ==> s == ""
  {
    if r.matchText.Some? then r.matchText.value else ""
  }

  /** The compiled pattern: the translated "match" text, wrapped in word
      boundaries unless the rule is partial. */
  function PatternOf(r: Rule): (p: string)
  {
    var pat := WildcardToRegex(Raw(r));
    if IsPartial(r) then pat else "\\b(?:" + pat + ")\\b"
  }

  /** The word-boundary wrapping in terms of the reference translation. */
  lemma PatternTranslates(r: Rule)
    ensures var t := if Raw(r) == "" then "" else Translate(Strip(Raw(r)));
      PatternOf(r) == if IsPartial(r) then t else "\\b(?:" + t + ")\\b"
  {
    WildcardTranslates(Raw(r));
  }

  /** One entry of `compiled`: the rule, its pattern and its exception patterns. */
  function CompileRule(r: Rule): (c: Compiled)
  {
    Compiled(r, PatternOf(r), MapSeq(WildcardToRegex, r.exceptions))
  }

  /** The body of the `_compile` loop for one rule: its pattern, and its
      exception patterns compiled one by one. */
  method CompileStep(r: Rule) returns (c: Compiled)
    ensures c == CompileRule(r)
  {
    var exceptions: seq<string> := [];
    for k := 0 to |r.exceptions|
      invariant exceptions == MapSeq(WildcardToRegex, r.exceptions[..k])
    {
      MapSeqSnoc(WildcardToRegex, r.exceptions, k);
      exceptions := exceptions + [WildcardToRegex(r.exceptions[k])];
    }
    assert r.exceptions[..|r.exceptions|] == r.exceptions;
    c := Compiled(r, PatternOf(r), exceptions);
  }

  // ---------------------------------------------------------------------------
  // check
  // ---------------------------------------------------------------------------

  /** `any(ex.search(text) for ex in ex_list)`. */
  predicate Excepted(c: Compiled, text: string, find: Finder)
  {
    exists k :: 0 <= k < |c.exceptions| && find(c.exceptions[k], text) != []
  }

  /** What one rule contributes to `check`: nothing when it does not match
      or an exception matches, otherwise one violation for its first match. */
  function ViolationOf(c: Compiled, text: string, find: Finder): (v: seq<Violation>)
    requires Sound(find)
    ensures |v| <= 1
    ensures v == [] <==> find(c.pattern, text) == [] || Excepted(c, text, find)
    ensures v != [] ==> v[0].id == c.rule.id && v[0].ruleMatch == c.rule.matchText
  {
    var ms := find(c.pattern, text);
    if ms == [] || Excepted(c, text, find) then []
    else
      assert ms[0] in ms;
      [Violation(c.rule.id, c.rule.severity, c.rule.tags, text[ms[0].start..ms[0].end], c.rule.matchText)]
  }

  /** The violations of `check`, rule by rule. */
  function Violations(cs: seq<Compiled>, text: string, find: Finder): (vs: seq<Violation>)
    requires Sound(find)
    ensures |vs| <= |cs|
    decreases |cs|
  {
    if cs == [] then []
    else Violations(cs[..|cs| - 1], text, find) + ViolationOf(cs[|cs| - 1], text, find)
  }

  /** Violations come in rule order: those of a list of rules are those of its
      first part followed by those of the rest. */
  lemma {:induction false} ViolationsAppend(a: seq<Compiled>, b: seq<Compiled>, text: string, find: Finder)
    requires Sound(find)
    ensures Violations(a + b, text, find) == Violations(a, text, find) + Violations(b, text, find)
    decreases |b|
  {
    if b == [] {
      assert a + b == a;
    } else {
      var b' := b[..|b| - 1];
      assert (a + b)[..|a + b| - 1] == a + b';
      assert (a + b)[|a + b| - 1] == b[|b| - 1];
      ViolationsAppend(a, b', text, find);
    }
  }

  /** The text is clean exactly when every rule either misses or is vetoed by
      one of its exceptions. */
  lemma {:induction false} NoViolations(cs: seq<Compiled>, text: string, find: Finder)
    requires Sound(find)
    ensures Violations(cs, text, find) == [] <==>
      forall i :: 0 <= i < |cs| ==> find(cs[i].pattern, text) == [] || Excepted(cs[i], text, find)
    decreases |cs|
  {
    if cs != [] {
      var p := cs[..|cs| - 1];
      NoViolations(p, text, find);
      assert forall i :: 0 <= i < |p| ==> p[i] == cs[i];
    }
  }

  // ---------------------------------------------------------------------------
  // censor: hits, sort, merge, mask
  // ---------------------------------------------------------------------------

  /** Whether position `x` lies in one of the spans. */
  predicate Covered(spans: seq<Span>, x: int)
  {
    exists sp :: sp in spans && sp.start <= x < sp.end
  }

  predicate Within(spans: seq<Span>, n: int)
  {
    forall sp :: sp in spans ==> 0 <= sp.start <= sp.end <= n
  }

  /** Each span ends strictly before the next one starts. */
  predicate Separated(spans: seq<Span>)
  {
    forall i, j :: 0 <= i < j < |spans| ==> spans[i].end < spans[j].start
  }

  /** The matches `censor` collects for one rule: all of them, unless an
      exception matches. */
  function HitsOf(c: Compiled, text: string, find: Finder): (h: seq<Span>)
  {
    if Excepted(c, text, find) then [] else find(c.pattern, text)
  }

  function Hits(cs: seq<Compiled>, text: string, find: Finder): (h: seq<Span>)
    requires Sound(find)
    ensures Within(h, |text|)
    decreases |cs|
  {
    if cs == [] then []
    else Hits(cs[..|cs| - 1], text, find) + HitsOf(cs[|cs| - 1], text, find)
  }

  lemma CoveredAppend(a: seq<Span>, b: seq<Span>, x: int)
    ensures Covered(a + b, x) <==> Covered(a, x) || Covered(b, x)
  {
    if Covered(a + b, x) {
      var sp :| sp in a + b && sp.start <= x < sp.end;
      assert sp in a || sp in b;
    }
    if Covered(a, x) {
      var sp :| sp in a && sp.start <= x < sp.end;
      assert sp in a + b;
    }
    if Covered(b, x) {
      var sp :| sp in b && sp.start <= x < sp.end;
      assert sp in a + b;
    }
  }

  /** A position is hit exactly when some rule without a matching exception
      has a match covering it. */
  lemma {:induction false} HitsCover(cs: seq<Compiled>, text: string, find: Finder, x: int)
    requires Sound(find)
    ensures Covered(Hits(cs, text, find), x) <==>
      exists i :: 0 <= i < |cs| && !Excepted(cs[i], text, find) && Covered(find(cs[i].pattern, text), x)
    decreases |cs|
  {
    if cs != [] {
      var p, c := cs[..|cs| - 1], cs[|cs| - 1];
      HitsCover(p, text, find, x);
      CoveredAppend(Hits(p, text, find), HitsOf(c, text, find), x);
      assert forall i :: 0 <= i < |p| ==> p[i] == cs[i];
      if Covered(HitsOf(c, text, find), x) {
        assert !Excepted(cs[|cs| - 1], text, find) && Covered(find(cs[|cs| - 1].pattern, text), x);
      }
    }
  }

  /** Python's order on `(start, end)` tuples. */
  predicate SpanLe(a: Span, b: Span)
  {
    a.start < b.start || (a.start == b.start && a.end <= b.end)
  }

  lemma SpanOrder()
    ensures Connected(SpanLe) && Transitive(SpanLe) && Antisymmetric(SpanLe)
  {
  }

  /** `merged` as the loop builds it, from the current span `cur` and the hits
      still to come. */
  function MergeFrom(cur: Span, rest: seq<Span>): (m: seq<Span>)
    ensures m != [] && m[0].start == cur.start
    decreases |rest|
  {
    if rest == [] then [cur]
    else if rest[0].start <= cur.end then
      MergeFrom(Span(cur.start, if cur.end >= rest[0].end then cur.end else rest[0].end), rest[1..])
    else [cur] + MergeFrom(rest[0], rest[1..])
  }

  function Merge(hits: seq<Span>): (m: seq<Span>)
    requires hits != []
  {
    MergeFrom(hits[0], hits[1..])
  }

  /** Starts never decrease along the list, none before `from`. */
  predicate StartsFrom(from: int, spans: seq<Span>)
  {
    && (forall i :: 0 <= i < |spans| ==> from <= spans[i].start)
    && (forall i, j :: 0 <= i < j < |spans| ==> spans[i].start <= spans[j].start)
  }

  lemma {:induction false} MergeFromShape(cur: Span, rest: seq<Span>, n: int)
    requires 0 <= cur.start <= cur.end <= n && Within(rest, n)
    requires StartsFrom(cur.start, rest)
    ensures var m := MergeFrom(cur, rest);
      && Within(m, n) && Separated(m)
      && forall i :: 0 <= i < |m| ==> cur.start <= m[i].start
    decreases |rest|
  {
    if rest != [] {
      assert rest[0] in rest;
      assert forall sp :: sp in rest[1..] ==> sp in rest;
      if rest[0].start <= cur.end {
        var next := Span(cur.start, if cur.end >= rest[0].end then cur.end else rest[0].end);
        MergeFromShape(next, rest[1..], n);
      } else {
        MergeFromShape(rest[0], rest[1..], n);
        var tail := MergeFrom(rest[0], rest[1..]);
        assert MergeFrom(cur, rest) == [cur] + tail;
        forall sp | sp in [cur] + tail ensures 0 <= sp.start <= sp.end <= n {
          if sp != cur { assert sp in tail; }
        }
      }
    }
  }

  lemma {:induction false} MergeFromCovers(cur: Span, rest: seq<Span>, x: int)
    requires StartsFrom(cur.start, rest)
    ensures Covered(MergeFrom(cur, rest), x) <==> (cur.start <= x < cur.end) || Covered(rest, x)
    decreases |rest|
  {
    if rest == [] {
      assert Covered([cur], x) <==> cur.start <= x < cur.end by {
        if Covered([cur], x) { var sp :| sp in [cur] && sp.start <= x < sp.end; }
        if cur.start <= x < cur.end { assert cur in [cur]; }
      }
    } else {
      assert rest == [rest[0]] + rest[1..];
      CoveredAppend([rest[0]], rest[1..], x);
      assert Covered([rest[0]], x) <==> rest[0].start <= x < rest[0].end by {
        if Covered([rest[0]], x) { var sp :| sp in [rest[0]] && sp.start <= x < sp.end; }
        if rest[0].start <= x < rest[0].end { assert rest[0] in [rest[0]]; }
      }
      if rest[0].start <= cur.end {
        var next := Span(cur.start, if cur.end >= rest[0].end then cur.end else rest[0].end);
        MergeFromCovers(next, rest[1..], x);
      } else {
        MergeFromCovers(rest[0], rest[1..], x);
        CoveredAppend([cur], MergeFrom(rest[0], rest[1..]), x);
        assert Covered([cur], x) <==> cur.start <= x < cur.end by {
          if Covered([cur], x) { var sp :| sp in [cur] && sp.start <= x < sp.end; }
          if cur.start <= x < cur.end { assert cur in [cur]; }
        }
      }
    }
  }

  /** Merging sorted hits gives spans within the text, each ending strictly
      before the next starts (touching and overlapping hits are joined), whose
      union is exactly the union of the hits. */
  lemma MergedSpans(hits: seq<Span>, n: int)
    requires hits != [] && SortedBy(SpanLe, hits) && Within(hits, n)
    ensures Within(Merge(hits), n) && Separated(Merge(hits))
    ensures forall x :: Covered(Merge(hits), x) <==> Covered(hits, x)
  {
    assert hits[0] in hits;
    assert forall sp :: sp in hits[1..] ==> sp in hits;
    assert StartsFrom(hits[0].start, hits[1..]) by {
      forall i | 0 <= i < |hits[1..]| ensures hits[0].start <= hits[1..][i].start {
        assert SpanLe(hits[0], hits[i + 1]);
      }
      forall i, j | 0 <= i < j < |hits[1..]| ensures hits[1..][i].start <= hits[1..][j].start {
        assert SpanLe(hits[i + 1], hits[j + 1]);
      }
    }
    MergeFromShape(hits[0], hits[1..], n);
    forall x ensures Covered(Merge(hits), x) <==> Covered(hits, x) {
      MergeFromCovers(hits[0], hits[1..], x);
      assert hits == [hits[0]] + hits[1..];
      CoveredAppend([hits[0]], hits[1..], x);
      assert Covered([hits[0]], x) <==> hits[0].start <= x < hits[0].end by {
        if Covered([hits[0]], x) { var sp :| sp in [hits[0]] && sp.start <= x < sp.end; }
        if hits[0].start <= x < hits[0].end { assert hits[0] in [hits[0]]; }
      }
    }
  }

  /** The merging loop of `censor`, over hits already sorted. */
  method MergeSorted(hits: seq<Span>) returns (merged: seq<Span>)
    requires hits != []
    ensures merged == Merge(hits)
  {
    merged := [];
    var s, e := hits[0].start, hits[0].end;
    for i := 1 to |hits|
      invariant merged + MergeFrom(Span(s, e), hits[i..]) == Merge(hits)
    {
      var ns, ne := hits[i].start, hits[i].end;
      assert hits[i..][0] == hits[i] && hits[i..][1..] == hits[i + 1..];
      if ns <= e {
        e := if e >= ne then e else ne;
      } else {
        merged := merged + [Span(s, e)];
        s, e := ns, ne;
      }
    }
    assert hits[|hits|..] == [];
    merged := merged + [Span(s, e)];
  }

  /** `mask_char * n`: empty for `n <= 0`. */
  function Repeat(mask: string, n: int): (r: string)
    ensures n <= 0 ==> r == ""
    ensures |mask| == 1 && n >= 0 ==> |r| == n && forall k :: 0 <= k < n ==> r[k] == mask[0]
    decreases n
  {
    if n <= 0 then "" else mask + Repeat(mask, n - 1)
  }

  /** The first `last` characters of the text with the spans masked; spans
      are taken from the back, as `censor` does. */
  function MaskUpTo(text: string, spans: seq<Span>, last: int, mask: string): (r: string)
    requires 0 <= last <= |text| && Within(spans, last) && Separated(spans)
    decreases |spans|
  {
    if spans == [] then text[..last]
    else
      var sp := spans[|spans| - 1];
      var front := spans[..|spans| - 1];
      assert sp in spans;
      assert Within(front, sp.start) by {
        forall s | s in front ensures 0 <= s.start <= s.end <= sp.start {
          var i :| 0 <= i < |front| && front[i] == s;
          assert spans[i] == s && spans[i] in spans;
        }
      }
      MaskUpTo(text, front, sp.start, mask) + Repeat(mask, sp.end - sp.start) + text[sp.end..last]
  }

  function Masked(text: string, spans: seq<Span>, mask: string): (r: string)
    requires Within(spans, |text|) && Separated(spans)
  {
    MaskUpTo(text, spans, |text|, mask)
  }

  /** With a one-character mask, masking keeps the length; a position inside
      a span becomes the mask and every other position keeps its character. */
  lemma {:induction false} MaskPointwise(text: string, spans: seq<Span>, last: int, mask: string)
    requires 0 <= last <= |text| && Within(spans, last) && Separated(spans)
    requires |mask| == 1
    ensures var r := MaskUpTo(text, spans, last, mask);
      && |r| == last
      && forall x :: 0 <= x < last ==> r[x] == if Covered(spans, x) then mask[0] else text[x]
    decreases |spans|
  {
    if spans != [] {
      var sp := spans[|spans| - 1];
      var front := spans[..|spans| - 1];
      assert sp in spans;
      assert Within(front, sp.start) by {
        forall s | s in front ensures 0 <= s.start <= s.end <= sp.start {
          var i :| 0 <= i < |front| && front[i] == s;
          assert spans[i] == s && spans[i] in spans;
        }
      }
      MaskPointwise(text, front, sp.start, mask);
      var a := MaskUpTo(text, front, sp.start, mask);
      var b := Repeat(mask, sp.end - sp.start);
      var c := text[sp.end..last];
      var r := MaskUpTo(text, spans, last, mask);
      assert r == a + b + c;
      assert spans == front + [sp];
      forall x | 0 <= x < last ensures r[x] == if Covered(spans, x) then mask[0] else text[x] {
        MaskStepAt(text, front, sp, last, mask, a, x);
      }
    }
  }

  /** One position of `a + mask * (sp.end - sp.start) + text[sp.end..last]`,
      where `a` is the masked text before `sp`. */
  lemma MaskStepAt(text: string, front: seq<Span>, sp: Span, last: int, mask: string, a: string, x: int)
    requires 0 <= sp.start <= sp.end <= last <= |text| && |mask| == 1
    requires Within(front, sp.start)
    requires |a| == sp.start
    requires forall y :: 0 <= y < sp.start ==> a[y] == if Covered(front, y) then mask[0] else text[y]
    requires 0 <= x < last
    ensures |a + Repeat(mask, sp.end - sp.start) + text[sp.end..last]| == last
    ensures (a + Repeat(mask, sp.end - sp.start) + text[sp.end..last])[x]
            == if Covered(front + [sp], x) then mask[0] else text[x]
  {
    var b := Repeat(mask, sp.end - sp.start);
    var c := text[sp.end..last];
    CoveredSnoc(front, sp, x);
    if x < sp.start {
      assert (a + b + c)[x] == a[x];
    } else if x < sp.end {
      NotCoveredPast(front, sp.start, x);
      assert (a + b + c)[x] == b[x - sp.start];
    } else {
      NotCoveredPast(front, sp.start, x);
      assert (a + b + c)[x] == c[x - sp.end];
    }
  }

  lemma CoveredSnoc(front: seq<Span>, sp: Span, x: int)
    ensures Covered(front + [sp], x) <==> Covered(front, x) || sp.start <= x < sp.end
  {
    CoveredAppend(front, [sp], x);
    if Covered([sp], x) { var t :| t in [sp] && t.start <= x < t.end; }
    if sp.start <= x < sp.end { assert sp in [sp]; }
  }

  lemma NotCoveredPast(spans: seq<Span>, bound: int, x: int)
    requires Within(spans, bound) && bound <= x
    ensures !Covered(spans, x)
  {
    forall t | t in spans ensures !(t.start <= x < t.end) { }
  }

  /** `"".join(reversed(res))`. */
  function JoinReversed(res: seq<string>): (r: string)
    ensures res == [] ==> r == ""
  {
    if res == [] then "" else res[|res| - 1] + JoinReversed(res[..|res| - 1])
  }

  lemma JoinReversedSnoc(res: seq<string>, piece: string)
    ensures JoinReversed(res + [piece]) == piece + JoinReversed(res)
  {
    assert (res + [piece])[..|res|] == res;
  }

  /** Masking the first `j + 1` spans up to `last` is masking the first `j`
      up to the start of span `j`, then its mask, then the text after it. */
  lemma MaskUnfold(text: string, merged: seq<Span>, j: int, last: int, mask: string)
    requires 0 <= j < |merged| && 0 <= last <= |text|
    requires Within(merged[..j + 1], last) && Separated(merged)
    ensures Within(merged[..j], merged[j].start)
    ensures MaskUpTo(text, merged[..j + 1], last, mask)
            == MaskUpTo(text, merged[..j], merged[j].start, mask)
               + Repeat(mask, merged[j].end - merged[j].start) + text[merged[j].end..last]
  {
    var spans := merged[..j + 1];
    assert spans[..j] == merged[..j] && spans[j] == merged[j];
    assert Within(merged[..j], merged[j].start) by {
      forall t | t in merged[..j] ensures 0 <= t.start <= t.end <= merged[j].start {
        var i :| 0 <= i < j && merged[i] == t;
        assert merged[..j + 1][i] == t;
      }
    }
  }

  /** One turn of the masking loop keeps the masked text it stands for. */
  lemma MaskStep(text: string, merged: seq<Span>, j: int, last: int, mask: string, res: seq<string>)
    requires 0 <= j < |merged| && 0 <= last <= |text|
    requires Within(merged[..j + 1], last) && Separated(merged)
    ensures Within(merged[..j], merged[j].start)
    ensures var s, e := merged[j].start, merged[j].end;
      MaskUpTo(text, merged[..j], s, mask) + JoinReversed(res + [text[e..last]] + [Repeat(mask, e - s)])
      == MaskUpTo(text, merged[..j + 1], last, mask) + JoinReversed(res)
  {
    var s, e := merged[j].start, merged[j].end;
    MaskUnfold(text, merged, j, last, mask);
    var front, m, after, done := MaskUpTo(text, merged[..j], s, mask), Repeat(mask, e - s), text[e..last], JoinReversed(res);
    JoinReversedPair(res, after, m);
    Regroup(front, m, after, done);
  }

  /** Two pieces pushed onto `res` come out in front of it, the later first. */
  lemma JoinReversedPair(res: seq<string>, x: string, y: string)
    ensures JoinReversed(res + [x] + [y]) == y + (x + JoinReversed(res))
  {
    JoinReversedSnoc(res, x);
    JoinReversedSnoc(res + [x], y);
  }

  lemma Regroup(a: string, b: string, c: string, d: string)
    ensures a + (b + (c + d)) == a + b + c + d
  {
  }

  /** What the masking loop keeps: the spans before `j` still to be masked
      in the text up to `last`, followed by the collected pieces in reverse,
      make up the masked text. */
  ghost predicate MaskInv(text: string, merged: seq<Span>, mask: string, j: int, last: int, res: seq<string>)
  {
    && 0 <= j <= |merged| && 0 <= last <= |text|
    && Within(merged, |text|) && Separated(merged) && Within(merged[..j], last)
    && MaskUpTo(text, merged[..j], last, mask) + JoinReversed(res) == Masked(text, merged, mask)
  }

  lemma MaskInvStep(text: string, merged: seq<Span>, mask: string, j: int, last: int, res: seq<string>)
    requires MaskInv(text, merged, mask, j, last, res) && j > 0
    ensures 0 <= merged[j - 1].start <= merged[j - 1].end <= last
    ensures var s, e := merged[j - 1].start, merged[j - 1].end;
      MaskInv(text, merged, mask, j - 1, s, res + [text[e..last]] + [Repeat(mask, e - s)])
  {
    assert merged[j - 1] in merged[..j];
    MaskStep(text, merged, j - 1, last, mask, res);
  }

  lemma MaskInvDone(text: string, merged: seq<Span>, mask: string, last: int, res: seq<string>)
    requires MaskInv(text, merged, mask, 0, last, res)
    ensures JoinReversed(res + [text[..last]]) == Masked(text, merged, mask)
  {
    assert merged[..0] == [];
    JoinReversedSnoc(res, text[..last]);
  }

  /** The masking loop of `censor`: walks the merged spans from the back,
      collecting the text after each span and the span's mask. */
  method MaskSpans(text: string, merged: seq<Span>, mask: string) returns (r: string)
    requires Within(merged, |text|) && Separated(merged)
    ensures r == Masked(text, merged, mask)
  {
    var res: seq<string> := [];
    var last := |text|;
    var j := |merged|;
    assert merged[..j] == merged;
    while j > 0
      invariant MaskInv(text, merged, mask, j, last, res)
      decreases j
    {
      MaskInvStep(text, merged, mask, j, last, res);
      var s, e := merged[j - 1].start, merged[j - 1].end;
      res := res + [text[e..last]] + [Repeat(mask, e - s)];
      j, last := j - 1, s;
    }
    MaskInvDone(text, merged, mask, last, res);
    res := res + [text[..last]];
    r := JoinReversed(res);
  }

  /** What `censor` returns. */
  function Censored(cs: seq<Compiled>, text: string, mask: string, find: Finder): (r: string)
    requires Sound(find)
    ensures text == "" ==> r == text
    ensures Hits(cs, text, find) == [] ==> r == text
  {
    if text == "" then text
    else
      var hits := Hits(cs, text, find);
      if hits == [] then text
      else
        var sorted := SortBy(SpanLe, hits);
        SpanOrder();
        SortBySorted(SpanLe, hits);
        assert Within(sorted, |text|) by {
          forall sp | sp in sorted ensures 0 <= sp.start <= sp.end <= |text| {
            assert sp in multiset(sorted);
          }
        }
        MergedSpans(sorted, |text|);
        Masked(text, Merge(sorted), mask)
  }

  /** With a one-character mask, `censor` keeps the length of the text, masks
      exactly the positions some non-excepted match of some rule covers, and
      keeps every other character. */
  lemma CensorMasksHits(cs: seq<Compiled>, text: string, mask: string, find: Finder)
    requires Sound(find) && |mask| == 1
    ensures var r := Censored(cs, text, mask, find);
      && |r| == |text|
      && forall x :: 0 <= x < |text| ==>
           r[x] == if exists i :: 0 <= i < |cs| && !Excepted(cs[i], text, find) && Covered(find(cs[i].pattern, text), x)
                   then mask[0] else text[x]
  {
    var hits := Hits(cs, text, find);
    var r := Censored(cs, text, mask, find);
    if text != "" && hits != [] {
      var sorted := SortBy(SpanLe, hits);
      SpanOrder();
      SortBySorted(SpanLe, hits);
      assert Within(sorted, |text|) by {
        forall sp | sp in sorted ensures 0 <= sp.start <= sp.end <= |text| {
          assert sp in multiset(sorted);
        }
      }
      MergedSpans(sorted, |text|);
      MaskPointwise(text, Merge(sorted), |text|, mask);
      assert r == Masked(text, Merge(sorted), mask);
      forall x | 0 <= x < |text| ensures r[x] == if Covered(hits, x) then mask[0] else text[x] {
        if Covered(sorted, x) {
          var sp :| sp in sorted && sp.start <= x < sp.end;
          assert sp in multiset(hits);
        }
        if Covered(hits, x) {
          var sp :| sp in hits && sp.start <= x < sp.end;
          assert sp in multiset(sorted);
        }
      }
    }
    forall x | 0 <= x < |text|
      ensures r[x] == if exists i :: 0 <= i < |cs| && !Excepted(cs[i], text, find) && Covered(find(cs[i].pattern, text), x)
                      then mask[0] else text[x]
    {
      HitsCover(cs, text, find, x);
    }
  }

  // ---------------------------------------------------------------------------
  // The filter
  // ---------------------------------------------------------------------------

  class ProfanityFilter {
    var rules: seq<Rule>
    var compiled: seq<Compiled>

    /** `compiled` holds one entry per rule, in rule order. */
    ghost predicate Valid()
      reads this
    {
      compiled == MapSeq(CompileRule, rules)
    }

    /** `__init__`: the given rule list, or a copy of the default rules. */
    constructor (given: Option<seq<Rule>>)
      ensures rules == if given.Some? then given.value else DefaultRules
      ensures Valid()
    {
      rules := if given.Some? then given.value else DefaultRules;
      compiled := [];
      new;
      Compile();
    }

    /** `_compile`: one compiled pattern, with compiled exceptions, per rule. */
    method Compile()
      modifies this
      ensures rules == old(rules) && Valid()
    {
      var rs: seq<Rule>, acc: seq<Compiled> := rules, [];
      for i := 0 to |rs|
        invariant rules == rs
        invariant acc == MapSeq(CompileRule, rs[..i])
      {
        MapSeqSnoc(CompileRule, rs, i);
        var c := CompileStep(rs[i]);
        acc := acc + [c];
      }
      assert rs[..|rs|] == rs;
      compiled := acc;
    }

    /** `check`: the violations, at most one per rule and in rule order. */
    method Check(text: string, find: Finder) returns (violations: seq<Violation>)
      requires Sound(find)
      ensures violations == Violations(compiled, text, find)
    {
      violations := [];
      for i := 0 to |compiled|
        invariant violations == Violations(compiled[..i], text, find)
      {
        assert compiled[..i + 1][..i] == compiled[..i];
        var c := compiled[i];
        var ms := find(c.pattern, text);
        if ms == [] {
          continue;
        }
        if Excepted(c, text, find) {
          continue;
        }
        assert ms[0] in ms;
        violations := violations + [Violation(c.rule.id, c.rule.severity, c.rule.tags,
                                              text[ms[0].start..ms[0].end], c.rule.matchText)];
      }
      assert compiled[..|compiled|] == compiled;
    }

    /** `censor`: collects the hits of every rule, sorts and merges them, and
        masks the merged spans. */
    method Censor(text: string, mask: string, find: Finder) returns (r: string)
      requires Sound(find)
      ensures r == Censored(compiled, text, mask, find)
    {
      if text == "" {
        return text;
      }
      var out := text;
      var hits: seq<Span> := [];
      for i := 0 to |compiled|
        invariant hits == Hits(compiled[..i], out, find)
      {
        assert compiled[..i + 1][..i] == compiled[..i];
        var c := compiled[i];
        var ms := find(c.pattern, out);
        for k := 0 to |ms|
          invariant hits == Hits(compiled[..i], out, find) + (if Excepted(c, out, find) then [] else ms[..k])
        {
          if Excepted(c, out, find) {
            continue;
          }
          hits := hits + [ms[k]];
        }
        assert ms[..|ms|] == ms;
      }
      assert compiled[..|compiled|] == compiled;
      if hits == [] {
        return out;
      }
      SpanOrder();
      SortBySorted(SpanLe, hits);
      var sorted := SortBy(SpanLe, hits);
      assert Within(sorted, |out|) by {
        forall sp | sp in sorted ensures 0 <= sp.start <= sp.end <= |out| {
          assert sp in multiset(sorted);
        }
      }
      var merged := MergeSorted(sorted);
      MergedSpans(sorted, |out|);
      r := MaskSpans(out, merged, mask);
    }

    /** `clean`: the censored text and the violations, both of the text as
        given. */
    method Clean(text: string, mask: string, find: Finder) returns (censored: string, violations: seq<Violation>)
      requires Sound(find)
      ensures censored == Censored(compiled, text, mask, find)
      ensures violations == Violations(compiled, text, find)
    {
      censored := Censor(text, mask, find);
      violations := Check(text, find);
    }
  }
}
