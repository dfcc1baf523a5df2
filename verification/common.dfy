/**
 * Vocabulary shared by the lobby registry, the round managers, the four game
 * sessions and the profanity filter: optional values, player names and texts,
 * Python's `str.strip`, `str.upper` and `str.lower` as far as the model needs
 * them, Python's string order and `sorted`, the scan over vote sets that every
 * game performs, and the multiset of a dictionary's values.
 */
module Common {

  datatype Option<T> = None | Some(value: T)

  /** Player names and submitted texts are Python `str` values. */
  type Player = string
  type Text = string

  // ---------------------------------------------------------------------------
  // Python string helpers
  // ---------------------------------------------------------------------------

  /** The characters for which Python's `str.isspace()` holds. */
  predicate IsSpace(c: char)
  {
    || ('\t' <= c <= '\r')
    || ('\U{1C}' <= c <= ' ')
    || c == '\U{85}' || c == '\U{A0}' || c == '\U{1680}'
    || ('\U{2000}' <= c <= '\U{200A}')
    || c == '\U{2028}' || c == '\U{2029}' || c == '\U{202F}' || c == '\U{205F}' || c == '\U{3000}'
  }

  /** Number of leading whitespace characters. */
  function LeadingSpace(s: string): (n: nat)
    ensures n <= |s|
    ensures forall k :: 0 <= k < n ==> IsSpace(s[k])
    ensures n == |s| || !IsSpace(s[n])
  {
    if |s| > 0 && IsSpace(s[0]) then 1 + LeadingSpace(s[1..]) else 0
  }

  /** Length of `s` once its trailing whitespace is dropped. */
  function TrailingStart(s: string): (m: nat)
    ensures m <= |s|
    ensures forall k :: m <= k < |s| ==> IsSpace(s[k])
    ensures m == 0 || !IsSpace(s[m - 1])
  {
    if |s| > 0 && IsSpace(s[|s| - 1]) then TrailingStart(s[..|s| - 1]) else |s|
  }

  /** Python's `s.strip()`: the slice of `s` between its leading and trailing whitespace. */
  function Strip(s: string): (r: string)
    ensures LeadingSpace(s) + |r| <= |s|
    ensures r == s[LeadingSpace(s)..LeadingSpace(s) + |r|]
    ensures forall k :: 0 <= k < LeadingSpace(s) ==> IsSpace(s[k])
    ensures forall k :: LeadingSpace(s) + |r| <= k < |s| ==> IsSpace(s[k])
    ensures r != [] ==> !IsSpace(r[0]) && !IsSpace(r[|r| - 1])
    ensures r == [] <==> forall k :: 0 <= k < |s| ==> IsSpace(s[k])
  {
    var n := LeadingSpace(s);
    var rest := s[n..];
    var r := rest[..TrailingStart(rest)];
    r
  }

  /** Python's `s.upper()` restricted to ASCII letters. */
  function Upper(s: string): (r: string)
    ensures |r| == |s|
    ensures forall k :: 0 <= k < |s| ==> r[k] == if 'a' <= s[k] <= 'z' then s[k] - 'a' + 'A' else s[k]
  {
    if s == [] then [] else [if 'a' <= s[0] <= 'z' then s[0] - 'a' + 'A' else s[0]] + Upper(s[1..])
  }

  /** Python's `s.lower()` restricted to ASCII letters. */
  function Lower(s: string): (r: string)
    ensures |r| == |s|
    ensures forall k :: 0 <= k < |s| ==> r[k] == if 'A' <= s[k] <= 'Z' then s[k] - 'A' + 'a' else s[k]
  {
    if s == [] then [] else [if 'A' <= s[0] <= 'Z' then s[0] - 'A' + 'a' else s[0]] + Lower(s[1..])
  }

  /** `[f(x) for x in xs]`, built the way a loop appending to a list builds it. */
  function MapSeq<A, B>(f: A -> B, xs: seq<A>): (ys: seq<B>)
    ensures |ys| == |xs|
    ensures forall k :: 0 <= k < |xs| ==> ys[k] == f(xs[k])
  {
    if xs == [] then []
    else MapSeq(f, xs[..|xs| - 1]) + [f(xs[|xs| - 1])]
  }

  /** One more loop turn appends `f` of the next element. */
  lemma MapSeqSnoc<A, B>(f: A -> B, xs: seq<A>, i: nat)
    requires i < |xs|
    ensures MapSeq(f, xs[..i + 1]) == MapSeq(f, xs[..i]) + [f(xs[i])]
  {
    assert xs[..i + 1][..i] == xs[..i];
  }

  // ---------------------------------------------------------------------------
  // Ordering and sorting (Python's `sorted` and `list.sort`)
  // ---------------------------------------------------------------------------

  ghost predicate Connected<T(!new)>(le: (T, T) -> bool)
  {
    forall a, b :: le(a, b) || le(b, a)
  }

  ghost predicate Transitive<T(!new)>(le: (T, T) -> bool)
  {
    forall a, b, c :: le(a, b) && le(b, c) ==> le(a, c)
  }

  ghost predicate Antisymmetric<T(!new)>(le: (T, T) -> bool)
  {
    forall a, b :: le(a, b) && le(b, a) ==> a == b
  }

  predicate SortedBy<T>(le: (T, T) -> bool, s: seq<T>)
  {
    forall i, j :: 0 <= i < j < |s| ==> le(s[i], s[j])
  }

  /** Inserts `x` in front of the first element it is not greater than. */
  function InsertBy<T>(le: (T, T) -> bool, x: T, s: seq<T>): (r: seq<T>)
    ensures multiset(r) == multiset(s) + multiset{x}
  {
    if s == [] then [x]
    else if le(x, s[0]) then [x] + s
    else
      assert s == [s[0]] + s[1..];
      [s[0]] + InsertBy(le, x, s[1..])
  }

  /** Insertion sort; stands for Python's stable `sorted`. */
  function SortBy<T>(le: (T, T) -> bool, s: seq<T>): (r: seq<T>)
    ensures multiset(r) == multiset(s)
  {
    if s == [] then []
    else
      assert s == [s[0]] + s[1..];
      InsertBy(le, s[0], SortBy(le, s[1..]))
  }

  lemma {:induction false} InsertBySorted<T(!new)>(le: (T, T) -> bool, x: T, s: seq<T>)
    requires Connected(le) && Transitive(le)
    requires SortedBy(le, s)
    ensures SortedBy(le, InsertBy(le, x, s))
  {
    if s != [] && !le(x, s[0]) {
      var tail := s[1..];
      assert SortedBy(le, tail);
      InsertBySorted(le, x, tail);
      var r := InsertBy(le, x, tail);
      assert le(s[0], x);
      forall j | 0 <= j < |r| ensures le(s[0], r[j]) {
        assert r[j] in multiset(r);
        if r[j] != x {
          assert r[j] in multiset(tail);
          var k :| 0 <= k < |tail| && tail[k] == r[j];
          assert le(s[0], s[k + 1]);
        }
      }
      assert InsertBy(le, x, s) == [s[0]] + r;
    }
  }

  /** `SortBy` yields a sorted permutation of its input. */
  lemma {:induction false} SortBySorted<T(!new)>(le: (T, T) -> bool, s: seq<T>)
    requires Connected(le) && Transitive(le)
    ensures SortedBy(le, SortBy(le, s)) && multiset(SortBy(le, s)) == multiset(s)
  {
    if s != [] {
      SortBySorted(le, s[1..]);
      InsertBySorted(le, s[0], SortBy(le, s[1..]));
    }
  }

  lemma MultisetTail<T>(a: seq<T>)
    requires a != []
    ensures multiset(a[1..]) == multiset(a) - multiset{a[0]}
  {
    assert a == [a[0]] + a[1..];
  }

  /** Two sorted arrangements of the same multiset start with the same element. */
  lemma SortedHeads<T(!new)>(le: (T, T) -> bool, a: seq<T>, b: seq<T>)
    requires Connected(le) && Antisymmetric(le)
    requires SortedBy(le, a) && SortedBy(le, b) && multiset(a) == multiset(b)
    requires a != [] && b != []
    ensures a[0] == b[0]
  {
    assert a[0] in multiset(b);
    var i :| 0 <= i < |b| && b[i] == a[0];
    assert b[0] in multiset(a);
    var j :| 0 <= j < |a| && a[j] == b[0];
    assert le(b[0], a[0]) by { if i > 0 { assert le(b[0], b[i]); } }
    assert le(a[0], b[0]) by { if j > 0 { assert le(a[0], a[j]); } }
  }

  /** Under an antisymmetric order a sorted arrangement of a multiset is unique. */
  lemma {:induction false} SortedUnique<T(!new)>(le: (T, T) -> bool, a: seq<T>, b: seq<T>)
    requires Connected(le) && Antisymmetric(le)
    requires SortedBy(le, a) && SortedBy(le, b) && multiset(a) == multiset(b)
    ensures a == b
    decreases |a|
  {
    assert |b| == |a| by { assert |multiset(a)| == |multiset(b)|; }
    if a != [] {
      SortedHeads(le, a, b);
      SortedTails(le, a, b);
      SortedUnique(le, a[1..], b[1..]);
      assert a == [a[0]] + a[1..] && b == [b[0]] + b[1..];
    }
  }

  /** Dropping equal heads keeps both lists sorted and equal as multisets. */
  lemma SortedTails<T>(le: (T, T) -> bool, a: seq<T>, b: seq<T>)
    requires SortedBy(le, a) && SortedBy(le, b) && multiset(a) == multiset(b)
    requires a != [] && b != [] && a[0] == b[0]
    ensures SortedBy(le, a[1..]) && SortedBy(le, b[1..])
    ensures multiset(a[1..]) == multiset(b[1..])
  {
    MultisetTail(a);
    MultisetTail(b);
  }

  /** Python's order on `str`: lexicographic by code point, a proper prefix first. */
  predicate TextLe(a: string, b: string)
  {
    if |a| == 0 then true
    else if |b| == 0 then false
    else if a[0] != b[0] then a[0] < b[0]
    else TextLe(a[1..], b[1..])
  }

  lemma {:induction false} TextLeConnected(a: string, b: string)
    ensures TextLe(a, b) || TextLe(b, a)
  {
    if |a| > 0 && |b| > 0 && a[0] == b[0] { TextLeConnected(a[1..], b[1..]); }
  }

  lemma {:induction false} TextLeTransitive(a: string, b: string, c: string)
    requires TextLe(a, b) && TextLe(b, c)
    ensures TextLe(a, c)
  {
    if |a| > 0 && |b| > 0 && |c| > 0 && a[0] == b[0] && b[0] == c[0] {
      TextLeTransitive(a[1..], b[1..], c[1..]);
    }
  }

  lemma {:induction false} TextLeAntisymmetric(a: string, b: string)
    requires TextLe(a, b) && TextLe(b, a)
    ensures a == b
  {
    if |a| > 0 && |b| > 0 {
      TextLeAntisymmetric(a[1..], b[1..]);
      assert a == [a[0]] + a[1..] && b == [b[0]] + b[1..];
    }
  }

  /** Python's string order is a total order. */
  lemma TextOrder()
    ensures Connected(TextLe) && Transitive(TextLe) && Antisymmetric(TextLe)
  {
    forall a, b ensures TextLe(a, b) || TextLe(b, a) { TextLeConnected(a, b); }
    forall a, b, c | TextLe(a, b) && TextLe(b, c) ensures TextLe(a, c) { TextLeTransitive(a, b, c); }
    forall a, b | TextLe(a, b) && TextLe(b, a) ensures a == b { TextLeAntisymmetric(a, b); }
  }

  /** Python's `sorted(texts)`: the unique sorted permutation. */
  function SortTexts(texts: seq<Text>): (r: seq<Text>)
    ensures SortedBy(TextLe, r) && multiset(r) == multiset(texts)
  {
    TextOrder();
    SortBySorted(TextLe, texts);
    SortBy(TextLe, texts)
  }

  // ---------------------------------------------------------------------------
  // Vote sets and dictionary values
  // ---------------------------------------------------------------------------

  /** The player is already among the voters of some pool entry. */
  predicate Voted(votes: map<Text, set<Player>>, player: Player)
  {
    exists t :: t in votes && player in votes[t]
  }

  /** No player is in two vote sets. */
  ghost predicate OneVoteEach(votes: map<Text, set<Player>>)
  {
    forall t, u, p :: t in votes && u in votes && p in votes[t] && p in votes[u] ==> t == u
  }

  /** The loop `for voters in votes.values(): if player in voters: ...` that
      `cast_vote` and `has_player_voted` run. */
  method ScanVotes(votes: map<Text, set<Player>>, player: Player) returns (found: bool)
    ensures found <==> Voted(votes, player)
  {
    var rest := votes.Keys;
    while rest != {}
      invariant rest <= votes.Keys
      invariant forall t :: t in votes && t !in rest ==> player !in votes[t]
      decreases |rest|
    {
      var t :| t in rest;
      if player in votes[t] {
        return true;
      }
      rest := rest - {t};
    }
    return false;
  }

  /** The multiset of a dictionary's values, as `list(d.values())` holds them. */
  ghost function Bag(m: map<Player, Text>): multiset<Text>
    decreases |m|
  {
    if |m| == 0 then multiset{}
    else
      var p :| p in m;
      assert |m - {p}| < |m| by { assert (m - {p}).Keys == m.Keys - {p}; }
      Bag(m - {p}) + multiset{m[p]}
  }

  /** Removing a present key shrinks a dictionary by one entry. */
  lemma MapRemoveSize(m: map<Player, Text>, p: Player)
    requires p in m
    ensures |m - {p}| == |m| - 1
  {
    assert (m - {p}).Keys == m.Keys - {p};
  }

  /** A non-empty dictionary's bag is some entry's value plus the bag of the rest. */
  lemma BagChoice(m: map<Player, Text>)
    requires |m| > 0
    ensures exists q :: q in m && Bag(m) == Bag(m - {q}) + multiset{m[q]}
  {
  }

  /** `Bag` does not depend on which key is taken out first. */
  lemma {:induction false} BagRemove(m: map<Player, Text>, p: Player)
    requires p in m
    ensures Bag(m) == Bag(m - {p}) + multiset{m[p]}
    decreases |m|, 1
  {
    MapRemoveSize(m, p);
    BagChoice(m);
    var q :| q in m && Bag(m) == Bag(m - {q}) + multiset{m[q]};
    if q != p {
      BagSwap(m, p, q);
    }
  }

  /** Taking out `q` and then `p` leaves the same bag as taking out `p` and then `q`. */
  lemma {:induction false} BagSwap(m: map<Player, Text>, p: Player, q: Player)
    requires p in m && q in m && p != q
    ensures Bag(m - {q}) + multiset{m[q]} == Bag(m - {p}) + multiset{m[p]}
    decreases |m|, 0
  {
    var mq, mp, rest := m - {q}, m - {p}, m - {p, q};
    MapRemoveSize(m, q);
    MapRemoveSize(m, p);
    assert mq - {p} == rest;
    assert mp - {q} == rest;
    BagRemove(mq, p);
    BagRemove(mp, q);
    var br, xp, xq := Bag(rest), multiset{m[p]}, multiset{m[q]};
    assert Bag(mq) == br + xp;
    assert Bag(mp) == br + xq;
  }

  /** The bag holds exactly the dictionary's values. */
  lemma {:induction false} BagValues(m: map<Player, Text>)
    ensures forall x :: x in Bag(m) <==> x in m.Values
    decreases |m|
  {
    if |m| == 0 {
      assert m.Keys == {};
      assert m.Values == {};
    } else {
      var p :| p in m;
      var rest := m - {p};
      MapRemoveSize(m, p);
      BagValues(rest);
      BagRemove(m, p);
      assert rest[p := m[p]] == m;
      ValuesAdd(rest, p, m[p]);
      var bm, br := Bag(m), Bag(rest);
      assert bm == br + multiset{m[p]};
      forall x ensures x in bm <==> x in m.Values {
        assert x in br <==> x in rest.Values;
      }
    }
  }

  /** Adding a new key adds its value to the bag. */
  lemma BagAdd(m: map<Player, Text>, p: Player, t: Text)
    requires p !in m
    ensures Bag(m[p := t]) == Bag(m) + multiset{t}
  {
    BagRemove(m[p := t], p);
    assert m[p := t] - {p} == m;
  }

  /** Adding a new key adds its value to the dictionary's values. */
  lemma ValuesAdd(m: map<Player, Text>, p: Player, t: Text)
    requires p !in m
    ensures m[p := t].Values == m.Values + {t}
  {
    assert m[p := t][p] == t;
    forall x | x in m[p := t].Values ensures x in m.Values + {t} {
      var k :| k in m[p := t] && m[p := t][k] == x;
      if k != p {
        assert m[k] == x;
      }
    }
    forall x | x in m.Values ensures x in m[p := t].Values {
      var k :| k in m && m[k] == x;
      assert m[p := t][k] == x;
    }
  }

  /** `list(m.values())`, in whatever order the dictionary yields them. */
  method CollectValues(m: map<Player, Text>) returns (r: seq<Text>)
    ensures multiset(r) == Bag(m)
  {
    r := [];
    var left := m;
    while |left| > 0
      invariant multiset(r) + Bag(left) == Bag(m)
      decreases |left|
    {
      var p :| p in left;
      BagRemove(left, p);
      r := r + [left[p]];
      MapRemoveSize(left, p);
      left := left - {p};
    }
  }
}
