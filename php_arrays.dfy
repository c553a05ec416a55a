/** PHP values as json_decode($text, true) produces them, and the few PHP
    array primitives the SDK relies on: `??`, isset, empty, array_filter by
    key and array_merge.

    A PHP array is an ORDERED map from integer or string keys to values. It is
    modelled as a sequence of (key, value) bindings; when a key is bound more
    than once (a PHP array never is, but nothing here depends on that) the
    last binding wins, as in a PHP array literal. */
module PhpArrays {

  datatype Option<+T> = None | Some(value: T) {
    /** `$x ?? $default` on an optional result */
    function GetOr(default: T): T {
      match this
      case Some(v) => v
      case None => default
    }
  }

  /** An array key. json_decode turns an object key that is a canonical
      decimal integer into an integer key; that conversion is done by the
      decoder, before anything modelled here. */
  datatype Key = S(s: string) | I(i: int)

  /** A decoded JSON value: both JSON objects and JSON arrays become PHP
      arrays (Arr). */
  datatype Json =
    | Null
    | Bool(b: bool)
    | Int(i: int)
    | Float(f: real)
    | Str(s: string)
    | Arr(entries: Entries)

  type Entries = seq<(Key, Json)>

  predicate DistinctKeys(m: Entries) {
    forall i, j :: 0 <= i < j < |m| ==> m[i].0 != m[j].0
  }

  /** `$m[$k]` when `array_key_exists($k, $m)`: a later binding shadows an
      earlier one. None when k is not a key of m. */
  function Lookup(m: Entries, k: Key): (r: Option<Json>)
    ensures r.None? ==> forall i :: 0 <= i < |m| ==> m[i].0 != k
  {
    if m == [] then None
    else
      var rest := Lookup(m[1..], k);
      if rest.Some? then rest
      else if m[0].0 == k then Some(m[0].1)
      else None
  }

  lemma LookupSingle(k: Key, v: Json, k': Key)
    ensures Lookup([(k, v)], k') == if k == k' then Some(v) else None
  {
    assert [(k, v)][1..] == [];
  }

  /** The value read is that of the last binding of k: no later binding
      has the same key. */
  lemma {:induction false} LookupLastBinding(m: Entries, k: Key)
    ensures Lookup(m, k).Some? ==>
      exists i :: 0 <= i < |m| && m[i] == (k, Lookup(m, k).value)
                  && forall j :: i < j < |m| ==> m[j].0 != k
  {
    if m != [] {
      var rest := Lookup(m[1..], k);
      if rest.Some? {
        LookupLastBinding(m[1..], k);
        var i :| 0 <= i < |m[1..]| && m[1..][i] == (k, rest.value)
                 && forall j :: i < j < |m[1..]| ==> m[1..][j].0 != k;
        assert m[i + 1] == (k, rest.value);
        forall j | i + 1 < j < |m| ensures m[j].0 != k {
          assert m[j] == m[1..][j - 1];
        }
      } else if m[0].0 == k {
        forall j | 0 < j < |m| ensures m[j].0 != k {
          assert m[j] == m[1..][j - 1];
        }
      }
    }
  }

  /** Reading `$m[$k]`: a missing key reads as null. */
  function ValueAt(m: Entries, k: Key): Json {
    Lookup(m, k).GetOr(Null)
  }

  /** `isset($m[$k])`: the key is present and its value is not null. */
  predicate IsSet(m: Entries, k: Key)
    ensures IsSet(m, k) <==> exists v :: Lookup(m, k) == Some(v) && v != Null
  {
    ValueAt(m, k) != Null
  }

  /** `$m[$k] ?? $default` */
  function Coalesce(m: Entries, k: Key, default: Json): (r: Json)
    ensures IsSet(m, k) ==> Lookup(m, k) == Some(r)
    ensures !IsSet(m, k) ==> r == default
    ensures r == Null ==> default == Null
  {
    if IsSet(m, k) then ValueAt(m, k) else default
  }

  /** PHP's `empty($v)` on a value that is set: null, false, 0, 0.0, "",
      "0" and the empty array. */
  predicate IsEmpty(v: Json)
    ensures v.Str? ==> (IsEmpty(v) <==> v.s == "" || v.s == "0")
    ensures v.Int? ==> (IsEmpty(v) <==> v.i == 0)
    ensures v.Arr? ==> (IsEmpty(v) <==> v.entries == [])
    ensures v.Bool? ==> (IsEmpty(v) <==> !v.b)
  {
    v == Null || v == Bool(false) || v == Int(0) || v == Float(0.0)
    || v == Str("") || v == Str("0") || v == Arr([])
  }

  /** The string stored under k; None when absent or not a string. */
  function StringAt(m: Entries, k: Key): Option<string> {
    match Lookup(m, k)
    case Some(Str(s)) => Some(s)
    case _ => None
  }

  /** The integer stored under k; None when absent or not an integer. */
  function IntAt(m: Entries, k: Key): Option<int> {
    match Lookup(m, k)
    case Some(Int(n)) => Some(n)
    case _ => None
  }

  /** The array stored under k; None when absent or not an array. */
  function ArrayAt(m: Entries, k: Key): Option<Entries> {
    match Lookup(m, k)
    case Some(Arr(e)) => Some(e)
    case _ => None
  }

  /** `$m[$k] = $v` (the binding is replaced where it stands, or added at
      the end). */
  function SetKey(m: Entries, k: Key, v: Json): (r: Entries)
    ensures Lookup(r, k) == Some(v)
    ensures forall k' :: k' != k ==> Lookup(r, k') == Lookup(m, k')
    ensures DistinctKeys(m) ==> DistinctKeys(r)
  {
    if Lookup(m, k).Some? then Replace(m, k, v) else AppendNew(m, k, v)
  }

  function Replace(m: Entries, k: Key, v: Json): (r: Entries)
    ensures |r| == |m|
    ensures forall i :: 0 <= i < |m| ==> r[i] == (if m[i].0 == k then (k, v) else m[i])
    ensures Lookup(r, k) == (if Lookup(m, k).Some? then Some(v) else None)
    ensures forall k' :: k' != k ==> Lookup(r, k') == Lookup(m, k')
  {
    if m == [] then []
    else
      var r := [if m[0].0 == k then (k, v) else m[0]] + Replace(m[1..], k, v);
      assert r[1..] == Replace(m[1..], k, v);
      r
  }

  function AppendNew(m: Entries, k: Key, v: Json): (r: Entries)
    requires Lookup(m, k).None?
    ensures r == m + [(k, v)]
    ensures Lookup(r, k) == Some(v)
    ensures forall k' :: k' != k ==> Lookup(r, k') == Lookup(m, k')
    ensures DistinctKeys(m) ==> DistinctKeys(r)
  {
    var r := m + [(k, v)];
    LookupConcat(m, [(k, v)], k);
    forall k' | k' != k ensures Lookup(r, k') == Lookup(m, k') {
      LookupConcat(m, [(k, v)], k');
    }
    r
  }

  /** In `a + b` a binding of b shadows one of a. */
  lemma {:induction false} LookupConcat(a: Entries, b: Entries, k: Key)
    ensures Lookup(a + b, k) == if Lookup(b, k).Some? then Lookup(b, k) else Lookup(a, k)
  {
    if a != [] {
      assert (a + b)[0] == a[0];
      assert (a + b)[1..] == a[1..] + b;
      LookupConcat(a[1..], b, k);
    } else {
      assert a + b == b;
    }
  }

  /** Reading a literal of two or three bindings: the last binding of the
      key wins. */
  lemma LookupPair(e0: (Key, Json), e1: (Key, Json), k: Key)
    ensures Lookup([e0, e1], k) ==
      if e1.0 == k then Some(e1.1) else if e0.0 == k then Some(e0.1) else None
  {
    LookupConcat([e0], [e1], k);
    LookupSingle(e0.0, e0.1, k);
    LookupSingle(e1.0, e1.1, k);
    assert [e0, e1] == [e0] + [e1];
  }

  lemma LookupTriple(e0: (Key, Json), e1: (Key, Json), e2: (Key, Json), k: Key)
    ensures Lookup([e0, e1, e2], k) ==
      if e2.0 == k then Some(e2.1) else if e1.0 == k then Some(e1.1)
      else if e0.0 == k then Some(e0.1) else None
  {
    LookupConcat([e0, e1], [e2], k);
    LookupPair(e0, e1, k);
    LookupSingle(e2.0, e2.1, k);
    assert [e0, e1, e2] == [e0, e1] + [e2];
  }

  /** xs is ys with some bindings left out, the others in their order. */
  predicate IsSubsequence(xs: Entries, ys: Entries)
    decreases |ys|
  {
    if xs == [] then true
    else if ys == [] then false
    else if xs[0] == ys[0] then IsSubsequence(xs[1..], ys[1..])
    else IsSubsequence(xs, ys[1..])
  }

  /** `array_filter($m, fn($key) => $key !== $k, ARRAY_FILTER_USE_KEY)`:
      every binding except those of k, in order, keys kept. */
  function Without(m: Entries, k: Key): (r: Entries)
    ensures Lookup(r, k) == None
    ensures forall k' :: k' != k ==> Lookup(r, k') == Lookup(m, k')
    ensures k.S? ==> IntValues(r) == IntValues(m)
    ensures StringKeyed(m) ==> StringKeyed(r)
    ensures DistinctKeys(m) ==> DistinctKeys(r)
    ensures forall i :: 0 <= i < |r| ==> r[i] in m
  {
    if m == [] then []
    else
      var rest := Without(m[1..], k);
      if m[0].0 == k then
        rest
      else
        var r := [m[0]] + rest;
        assert r[1..] == rest;
        r
  }

  /** The filter keeps the surviving bindings in their order. */
  lemma {:induction false} WithoutIsSubsequence(m: Entries, k: Key)
    ensures IsSubsequence(Without(m, k), m)
    decreases |m|
  {
    if m != [] {
      var rest := Without(m[1..], k);
      WithoutIsSubsequence(m[1..], k);
      if m[0].0 == k {
        assert Without(m, k) == rest;
        assert rest != [] ==> rest[0] != m[0];
      } else {
        assert Without(m, k) == [m[0]] + rest;
        assert ([m[0]] + rest)[1..] == rest;
      }
    }
  }

  /** The values bound to integer keys, in order (these are what
      array_merge renumbers). */
  function IntValues(m: Entries): seq<Json> {
    if m == [] then []
    else (if m[0].0.I? then [m[0].1] else []) + IntValues(m[1..])
  }

  lemma {:induction false} IntValuesConcat(a: Entries, b: Entries)
    ensures IntValues(a + b) == IntValues(a) + IntValues(b)
  {
    if a != [] {
      assert (a + b)[0] == a[0];
      assert (a + b)[1..] == a[1..] + b;
      IntValuesConcat(a[1..], b);
    } else {
      assert a + b == b;
    }
  }

  /** Every key is an integer, as for an array decoded from a JSON list. */
  predicate IntKeyed(m: Entries) {
    forall i :: 0 <= i < |m| ==> m[i].0.I?
  }

  /** Every key is a string, as for an array decoded from a JSON object
      whose keys are not decimal integers. */
  predicate StringKeyed(m: Entries) {
    forall i :: 0 <= i < |m| ==> m[i].0.S?
  }

  /** The values of m rebound to the keys n, n+1, ... */
  function Renumbered(m: Entries, n: int): (r: Entries)
    ensures |r| == |m|
    ensures forall i :: 0 <= i < |m| ==> r[i] == (I(n + i), m[i].1)
  {
    if m == [] then [] else [(I(n), m[0].1)] + Renumbered(m[1..], n + 1)
  }

  /** `array_merge($a, $b)` */
  function Merge(a: Entries, b: Entries): Entries {
    MergeFrom([], 0, a + b)
  }

  /** The array_merge loop: `next` is the next free integer key of acc. A
      string key is assigned (overwriting in place), an integer key is
      appended under `next`. */
  function MergeFrom(acc: Entries, next: nat, rest: Entries): Entries
    decreases |rest|
  {
    if rest == [] then acc
    else if rest[0].0.S? then MergeFrom(SetKey(acc, rest[0].0, rest[0].1), next, rest[1..])
    else MergeFrom(acc + [(I(next), rest[0].1)], next + 1, rest[1..])
  }

  /** acc's integer keys are exactly I(0) .. I(next-1) */
  ghost predicate IntKeysBelow(acc: Entries, next: nat) {
    forall j :: Lookup(acc, I(j)).Some? <==> 0 <= j < next
  }

  lemma IntKeysBelowAfterSet(acc: Entries, next: nat, k: Key, v: Json)
    requires k.S? && IntKeysBelow(acc, next)
    ensures IntKeysBelow(SetKey(acc, k, v), next)
  {
    var acc' := SetKey(acc, k, v);
    forall j ensures Lookup(acc', I(j)) == Lookup(acc, I(j)) {
    }
  }

  lemma IntKeysBelowAfterAppend(acc: Entries, next: nat, v: Json)
    requires IntKeysBelow(acc, next)
    ensures IntKeysBelow(acc + [(I(next), v)], next + 1)
    ensures DistinctKeys(acc) ==> DistinctKeys(acc + [(I(next), v)])
  {
    assert Lookup(acc, I(next)).None?;
    var acc' := AppendNew(acc, I(next), v);
    forall j ensures Lookup(acc', I(j)).Some? <==> 0 <= j < next + 1 {
      if j == next {
        assert Lookup(acc', I(j)) == Some(v);
      } else {
        assert I(j) != I(next);
        assert Lookup(acc', I(j)) == Lookup(acc, I(j));
        assert Lookup(acc, I(j)).Some? <==> 0 <= j < next;
      }
    }
  }

  lemma {:induction false} MergeFromDistinct(acc: Entries, next: nat, rest: Entries)
    requires DistinctKeys(acc) && IntKeysBelow(acc, next)
    ensures DistinctKeys(MergeFrom(acc, next, rest))
    ensures IntKeysBelow(MergeFrom(acc, next, rest), next + |IntValues(rest)|)
    decreases |rest|
  {
    if rest != [] {
      var k, v := rest[0].0, rest[0].1;
      if k.S? {
        IntKeysBelowAfterSet(acc, next, k, v);
        assert MergeFrom(acc, next, rest) == MergeFrom(SetKey(acc, k, v), next, rest[1..]);
        assert IntValues(rest) == IntValues(rest[1..]);
        MergeFromDistinct(SetKey(acc, k, v), next, rest[1..]);
      } else {
        IntKeysBelowAfterAppend(acc, next, v);
        assert MergeFrom(acc, next, rest) == MergeFrom(acc + [(I(next), v)], next + 1, rest[1..]);
        assert |IntValues(rest)| == 1 + |IntValues(rest[1..])|;
        MergeFromDistinct(acc + [(I(next), v)], next + 1, rest[1..]);
      }
    }
  }

  lemma {:induction false} MergeFromStringLookup(acc: Entries, next: nat, rest: Entries, s: string)
    ensures Lookup(MergeFrom(acc, next, rest), S(s))
         == if Lookup(rest, S(s)).Some? then Lookup(rest, S(s)) else Lookup(acc, S(s))
    decreases |rest|
  {
    if rest != [] {
      var k, v := rest[0].0, rest[0].1;
      if k.S? {
        MergeFromStringLookup(SetKey(acc, k, v), next, rest[1..], s);
      } else {
        var acc' := acc + [(I(next), v)];
        LookupConcat(acc, [(I(next), v)], S(s));
        MergeFromStringLookup(acc', next + 1, rest[1..], s);
      }
    }
  }

  lemma {:induction false} MergeFromIntLookup(acc: Entries, next: nat, rest: Entries, j: int)
    requires IntKeysBelow(acc, next)
    ensures Lookup(MergeFrom(acc, next, rest), I(j))
         == if next <= j < next + |IntValues(rest)| then Some(IntValues(rest)[j - next])
            else Lookup(acc, I(j))
    decreases |rest|
  {
    if rest != [] {
      var k, v := rest[0].0, rest[0].1;
      var tail := rest[1..];
      if k.S? {
        var acc' := SetKey(acc, k, v);
        assert IntValues(rest) == IntValues(tail);
        assert Lookup(acc', I(j)) == Lookup(acc, I(j));
        IntKeysBelowAfterSet(acc, next, k, v);
        MergeFromIntLookup(acc', next, tail, j);
      } else {
        var acc' := acc + [(I(next), v)];
        var later := IntValues(tail);
        assert IntValues(rest) == [v] + later;
        LookupConcat(acc, [(I(next), v)], I(j));
        IntKeysBelowAfterAppend(acc, next, v);
        MergeFromIntLookup(acc', next + 1, tail, j);
        assert MergeFrom(acc, next, rest) == MergeFrom(acc', next + 1, tail);
        AppendedIntStep(Lookup(MergeFrom(acc', next + 1, tail), I(j)), Lookup(acc', I(j)),
                        Lookup(acc, I(j)), v, later, j, next);
      }
    }
  }

  /** The index arithmetic of one appended integer binding. */
  lemma AppendedIntStep(m: Option<Json>, after: Option<Json>, before: Option<Json>,
                        v: Json, later: seq<Json>, j: int, next: nat)
    requires m == if next + 1 <= j < next + 1 + |later| then Some(later[j - (next + 1)]) else after
    requires after == if j == next then Some(v) else before
    ensures m == if next <= j < next + |[v] + later| then Some(([v] + later)[j - next]) else before
  {
  }

  lemma {:induction false} MergeFromSplit(acc: Entries, next: nat, x: Entries, y: Entries)
    ensures MergeFrom(acc, next, x + y)
         == MergeFrom(MergeFrom(acc, next, x), next + |IntValues(x)|, y)
    decreases |x|
  {
    if x != [] {
      assert (x + y)[0] == x[0];
      assert (x + y)[1..] == x[1..] + y;
      assert |IntValues(x)| == (if x[0].0.I? then 1 else 0) + |IntValues(x[1..])|;
      var k, v := x[0].0, x[0].1;
      if k.S? {
        var acc' := SetKey(acc, k, v);
        assert MergeFrom(acc, next, x + y) == MergeFrom(acc', next, x[1..] + y);
        assert MergeFrom(acc, next, x) == MergeFrom(acc', next, x[1..]);
        MergeFromSplit(acc', next, x[1..], y);
      } else {
        var acc' := acc + [(I(next), v)];
        assert MergeFrom(acc, next, x + y) == MergeFrom(acc', next + 1, x[1..] + y);
        assert MergeFrom(acc, next, x) == MergeFrom(acc', next + 1, x[1..]);
        MergeFromSplit(acc', next + 1, x[1..], y);
      }
    } else {
      assert x + y == y;
    }
  }

  /** A key bound nowhere in m reads as absent. */
  lemma {:induction false} LookupAbsent(m: Entries, k: Key)
    requires forall i :: 0 <= i < |m| ==> m[i].0 != k
    ensures Lookup(m, k).None?
  {
    if m != [] {
      assert forall i :: 0 <= i < |m[1..]| ==> m[1..][i] == m[i + 1];
      LookupAbsent(m[1..], k);
    }
  }

  /** With the keys of acc + x distinct, x's first key is not in acc. */
  lemma FirstKeyFresh(acc: Entries, x: Entries)
    requires x != [] && DistinctKeys(acc + x)
    ensures Lookup(acc, x[0].0).None?
  {
    forall i | 0 <= i < |acc| ensures acc[i].0 != x[0].0 {
      assert (acc + x)[i] == acc[i] && (acc + x)[|acc|] == x[0];
    }
    LookupAbsent(acc, x[0].0);
  }

  /** One step of the merge loop over a string key that acc lacks: the
      binding is appended. */
  lemma FreshStringStep(acc: Entries, next: nat, x: Entries)
    requires x != [] && StringKeyed(x) && Lookup(acc, x[0].0).None?
    ensures MergeFrom(acc, next, x) == MergeFrom(acc + [x[0]], next, x[1..])
    ensures (acc + [x[0]]) + x[1..] == acc + x
    ensures StringKeyed(x[1..])
    ensures IntValues(x) == IntValues(x[1..])
  {
    assert SetKey(acc, x[0].0, x[0].1) == acc + [x[0]];
    assert (acc + [x[0]]) + x[1..] == acc + x;
  }

  /** Merging string-keyed bindings whose keys are new and distinct appends
      them. */
  lemma {:induction false} MergeFromFreshStrings(acc: Entries, next: nat, x: Entries)
    requires StringKeyed(x) && DistinctKeys(acc + x)
    ensures MergeFrom(acc, next, x) == acc + x
    ensures |IntValues(x)| == 0
    decreases |x|
  {
    if x != [] {
      FirstKeyFresh(acc, x);
      FreshStringStep(acc, next, x);
      MergeFromFreshStrings(acc + [x[0]], next, x[1..]);
    }
  }

  /** Merging integer-keyed bindings renumbers them from `next`. */
  lemma {:induction false} MergeFromInts(acc: Entries, next: nat, x: Entries)
    requires IntKeyed(x)
    ensures MergeFrom(acc, next, x) == acc + Renumbered(x, next)
    decreases |x|
  {
    if x != [] {
      MergeFromInts(acc + [(I(next), x[0].1)], next + 1, x[1..]);
      assert acc + [(I(next), x[0].1)] + Renumbered(x[1..], next + 1) == acc + Renumbered(x, next);
    }
  }

  lemma MergeProperties(a: Entries, b: Entries)
    ensures DistinctKeys(Merge(a, b))
    ensures forall s :: Lookup(Merge(a, b), S(s)) ==
              if Lookup(b, S(s)).Some? then Lookup(b, S(s)) else Lookup(a, S(s))
    ensures forall j :: Lookup(Merge(a, b), I(j)) ==
              if 0 <= j < |IntValues(a) + IntValues(b)| then Some((IntValues(a) + IntValues(b))[j]) else None
  {
    MergeFromDistinct([], 0, a + b);
    IntValuesConcat(a, b);
    forall s ensures Lookup(Merge(a, b), S(s))
         == if Lookup(b, S(s)).Some? then Lookup(b, S(s)) else Lookup(a, S(s)) {
      MergeFromStringLookup([], 0, a + b, s);
      LookupConcat(a, b, S(s));
    }
    forall j ensures Lookup(Merge(a, b), I(j))
         == if 0 <= j < |IntValues(a) + IntValues(b)| then Some((IntValues(a) + IntValues(b))[j]) else None {
      MergeFromIntLookup([], 0, a + b, j);
    }
  }

  /** array_merge of an object-shaped array with a list keeps the first
      array as it is and appends the list's values under keys 0 .. n-1. */
  lemma MergeStringsWithList(a: Entries, b: Entries)
    requires StringKeyed(a) && DistinctKeys(a)
    requires IntKeyed(b)
    ensures Merge(a, b) == a + Renumbered(b, 0)
  {
    MergeFromSplit([], 0, a, b);
    assert [] + a == a;
    MergeFromFreshStrings([], 0, a);
    MergeFromInts(a, 0, b);
  }

  /** Over string keys the merge loop leaves every binding already in acc
      where it stands: overwriting is in place, new keys go after. */
  lemma {:induction false} MergeFromKeepsPositions(acc: Entries, next: nat, rest: Entries)
    requires StringKeyed(rest)
    ensures |acc| <= |MergeFrom(acc, next, rest)|
    ensures forall i :: 0 <= i < |acc| ==> MergeFrom(acc, next, rest)[i].0 == acc[i].0
    decreases |rest|
  {
    if rest != [] {
      var acc' := SetKey(acc, rest[0].0, rest[0].1);
      assert MergeFrom(acc, next, rest) == MergeFrom(acc', next, rest[1..]);
      assert StringKeyed(rest[1..]);
      SetKeyShape(acc, rest[0].0, rest[0].1);
      MergeFromKeepsPositions(acc', next, rest[1..]);
    }
  }

  /** `array_merge` of two string-keyed arrays: the keys of a keep their
      positions at the front, b's values overwriting in place. */
  lemma MergeKeepsPositions(a: Entries, b: Entries)
    requires StringKeyed(a) && DistinctKeys(a) && StringKeyed(b)
    ensures |a| <= |Merge(a, b)|
    ensures forall i :: 0 <= i < |a| ==> Merge(a, b)[i].0 == a[i].0
  {
    MergeFromSplit([], 0, a, b);
    assert [] + a == a;
    MergeFromFreshStrings([], 0, a);
    MergeFromKeepsPositions(a, 0, b);
  }

  /** The bindings of b whose key is bound nowhere in known, in b's order. */
  function NewBindings(known: Entries, b: Entries): (r: Entries)
    ensures |r| <= |b|
    decreases |b|
  {
    if b == [] then []
    else (if Lookup(known, b[0].0).None? then [b[0]] else []) + NewBindings(known, b[1..])
  }

  lemma {:induction false} NewBindingsAgree(a1: Entries, a2: Entries, b: Entries)
    requires forall i :: 0 <= i < |b| ==> Lookup(a1, b[i].0).Some? == Lookup(a2, b[i].0).Some?
    ensures NewBindings(a1, b) == NewBindings(a2, b)
    decreases |b|
  {
    if b != [] {
      assert forall i :: 0 <= i < |b[1..]| ==> b[1..][i] == b[i + 1];
      NewBindingsAgree(a1, a2, b[1..]);
    }
  }

  /** Assignment to a bound key keeps the length; to an unbound key it
      appends. */
  lemma SetKeyShape(m: Entries, k: Key, v: Json)
    ensures forall i :: 0 <= i < |m| ==> SetKey(m, k, v)[i].0 == m[i].0
    ensures Lookup(m, k).Some? ==> |SetKey(m, k, v)| == |m|
    ensures Lookup(m, k).None? ==> SetKey(m, k, v) == m + [(k, v)]
  {
  }

  lemma DistinctStringTail(rest: Entries)
    requires rest != [] && StringKeyed(rest) && DistinctKeys(rest)
    ensures StringKeyed(rest[1..]) && DistinctKeys(rest[1..])
    ensures forall i :: 0 <= i < |rest[1..]| ==> rest[1..][i].0 != rest[0].0
  {
    var tail := rest[1..];
    forall i, j | 0 <= i < j < |tail| ensures tail[i].0 != tail[j].0 {
      assert tail[i] == rest[i + 1] && tail[j] == rest[j + 1];
    }
    forall i | 0 <= i < |tail| ensures tail[i].0 != rest[0].0 {
      assert tail[i] == rest[i + 1];
    }
  }

  /** The keys of m, in order. */
  function KeysOf(m: Entries): (r: seq<Key>)
    ensures |r| == |m|
    ensures forall i :: 0 <= i < |m| ==> r[i] == m[i].0
    decreases |m|
  {
    if m == [] then [] else [m[0].0] + KeysOf(m[1..])
  }

  lemma KeysOfConcat(x: Entries, y: Entries)
    ensures KeysOf(x + y) == KeysOf(x) + KeysOf(y)
  {
  }

  lemma KeysOfSamePositions(x: Entries, y: Entries)
    requires |x| == |y| && forall i :: 0 <= i < |x| ==> x[i].0 == y[i].0
    ensures KeysOf(x) == KeysOf(y)
  {
  }

  lemma AppendedKeyStep(acc: Entries, b0: (Key, Json), added: Entries, merged: seq<Key>)
    requires merged == KeysOf(acc + [b0]) + KeysOf(added)
    ensures merged == KeysOf(acc) + KeysOf([b0] + added)
  {
    KeysOfConcat(acc, [b0]);
    KeysOfConcat([b0], added);
  }

  /** Over distinct string keys the merge loop appends, after acc, exactly
      the keys acc does not bind, in the order they come. */
  lemma {:induction false} MergeFromAppendsNew(acc: Entries, next: nat, rest: Entries)
    requires StringKeyed(rest) && DistinctKeys(rest)
    ensures KeysOf(MergeFrom(acc, next, rest)) == KeysOf(acc) + KeysOf(NewBindings(acc, rest))
    decreases |rest|
  {
    if rest == [] {
      assert KeysOf(acc) + KeysOf([]) == KeysOf(acc);
    } else {
      var k, v := rest[0].0, rest[0].1;
      var acc' := SetKey(acc, k, v);
      var tail := rest[1..];
      DistinctStringTail(rest);
      var merged := KeysOf(MergeFrom(acc', next, tail));
      assert MergeFrom(acc, next, rest) == MergeFrom(acc', next, tail);
      MergeFromAppendsNew(acc', next, tail);
      NewBindingsAgree(acc', acc, tail);
      var added := NewBindings(acc, tail);
      SetKeyShape(acc, k, v);
      if Lookup(acc, k).None? {
        assert NewBindings(acc, rest) == [(k, v)] + added;
        AppendedKeyStep(acc, (k, v), added, merged);
      } else {
        assert NewBindings(acc, rest) == added;
        KeysOfSamePositions(acc', acc);
      }
    }
  }

  /** `array_merge` of two string-keyed arrays without repeated keys: a's
      keys stay in place, then come b's keys that a lacks, in b's order. */
  lemma MergeAppendsNew(a: Entries, b: Entries)
    requires StringKeyed(a) && DistinctKeys(a) && StringKeyed(b) && DistinctKeys(b)
    ensures KeysOf(Merge(a, b)) == KeysOf(a) + KeysOf(NewBindings(a, b))
  {
    MergeFromSplit([], 0, a, b);
    assert [] + a == a;
    MergeFromFreshStrings([], 0, a);
    MergeFromAppendsNew(a, 0, b);
  }
}
