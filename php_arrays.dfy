/** PHP values and PHP's ordered arrays, as far as the parameter resolver
    uses them: key lookup, iteration over values, `$a[k] = v`,
    `array_merge` and a null-rejecting filter. */
module PhpArrays {

  /** A PHP value. An object is known by its exact runtime class name (what
      `get_class` returns) and an identity. */
  datatype Value =
    | Null
    | Bool(b: bool)
    | Int(i: int)
    | Str(s: string)
    | Obj(cls: string, id: nat)

  /** An array key: a string key or an integer key. */
  datatype Key = Name(name: string) | Pos(index: int)

  type Entry = (Key, Value)

  predicate DistinctKeys(a: seq<Entry>) {
    forall i, j | 0 <= i < j < |a| :: a[i].0 != a[j].0
  }

  /** A PHP array: entries in insertion order, no key twice. */
  type PhpArray = a: seq<Entry> | DistinctKeys(a) witness []

  /** `array_key_exists($k, $a)` */
  predicate KeyExists(a: seq<Entry>, k: Key) {
    exists i | 0 <= i < |a| :: a[i].0 == k
  }

  /** `$a[$k]` for a key that is present: the value stored under `k`. */
  function Get(a: PhpArray, k: Key): (v: Value)
    requires KeyExists(a, k)
    ensures exists i | 0 <= i < |a| :: a[i].0 == k && a[i].1 == v
    ensures forall i | 0 <= i < |a| && a[i].0 == k :: a[i].1 == v
  {
    if a[0].0 == k then a[0].1 else Get(a[1..], k)
  }

  /** Position of a present key in the array's order. */
  function IndexOf(a: PhpArray, k: Key): (i: nat)
    requires KeyExists(a, k)
    ensures i < |a| && a[i].0 == k
  {
    if a[0].0 == k then 0 else 1 + IndexOf(a[1..], k)
  }

  /** The values in iteration order, as `foreach ($a as $v)` visits them. */
  function Values(a: seq<Entry>): seq<Value> {
    seq(|a|, i requires 0 <= i < |a| => a[i].1)
  }

  /** `$a[$k] = $v`: replaces the value in place when `k` is present,
      appends a new last entry otherwise. */
  function Put(a: PhpArray, k: Key, v: Value): (r: PhpArray)
    ensures KeyExists(a, k) ==>
      |r| == |a| && forall i | 0 <= i < |a| :: r[i] == if a[i].0 == k then (k, v) else a[i]
    ensures !KeyExists(a, k) ==> r == a + [(k, v)]
  {
    if a == [] then [(k, v)]
    else if a[0].0 == k then [(k, v)] + a[1..]
    else
      var rest := Put(a[1..], k, v);
      forall i | 0 <= i < |rest| ensures rest[i].0 != a[0].0 {
        if i < |a[1..]| {
          assert rest[i].0 == k || rest[i].0 == a[1..][i].0;
          assert a[1..][i] == a[i + 1];
        }
      }
      [a[0]] + rest
  }

  /** Every integer key of `a` is below `next`. */
  predicate PosKeysBelow(a: seq<Entry>, next: int) {
    forall i | 0 <= i < |a| :: a[i].0.Pos? ==> a[i].0.index < next
  }

  /** The loop inside `array_merge`: entries of `b` are added to `acc` one by
      one; an integer key is dropped and the value appended under the next
      free integer key `next`, a string key is assigned with `$acc[$k] = $v`
      (so a later string key overwrites an earlier one in place). */
  function MergeInto(acc: PhpArray, next: int, b: seq<Entry>): (r: PhpArray)
    requires PosKeysBelow(acc, next)
    decreases |b|
  {
    if b == [] then acc
    else
      match b[0].0
      case Name(_) =>
        var acc' := Put(acc, b[0].0, b[0].1);
        assert PosKeysBelow(acc', next) by {
          forall i | 0 <= i < |acc'| && acc'[i].0.Pos? ensures acc'[i].0.index < next {
            if KeyExists(acc, b[0].0) {
              assert acc'[i] == acc[i];
            } else if i < |acc| {
              assert acc'[i] == acc[i];
            }
          }
        }
        MergeInto(acc', next, b[1..])
      case Pos(_) =>
        MergeInto(acc + [(Pos(next), b[0].1)], next + 1, b[1..])
  }

  /** `array_merge($a, $b)`: integer keys renumbered from 0 in order, string
      keys kept, a string key of `b` overriding the same key of `a`. */
  function ArrayMerge(a: seq<Entry>, b: seq<Entry>): PhpArray {
    MergeInto([], 0, a + b)
  }

  /** Number of integer keys in `a`. */
  function CountPos(a: seq<Entry>): nat {
    if a == [] then 0 else (if a[0].0.Pos? then 1 else 0) + CountPos(a[1..])
  }

  /** `a` with its integer keys replaced by `next`, `next + 1`, ... in order
      and everything else left as it is: what `array_merge` makes of an
      array whose string keys do not clash with the entries before it. */
  function Renumber(a: seq<Entry>, next: int): (r: seq<Entry>)
    ensures |r| == |a|
    ensures forall i | 0 <= i < |a| :: r[i].1 == a[i].1
    ensures forall i | 0 <= i < |a| && a[i].0.Name? :: r[i].0 == a[i].0
    ensures forall i | 0 <= i < |a| && a[i].0.Pos? :: r[i].0 == Pos(next + CountPos(a[..i]))
    decreases |a|
  {
    if a == [] then []
    else
      var rest := Renumber(a[1..], if a[0].0.Pos? then next + 1 else next);
      var r := [if a[0].0.Pos? then (Pos(next), a[0].1) else a[0]] + rest;
      assert forall i | 1 <= i < |a| :: a[..i] == [a[0]] + a[1..][..i - 1];
      r
  }

  lemma KeyExistsAppend(a: seq<Entry>, e: Entry, k: Key)
    ensures KeyExists(a + [e], k) <==> KeyExists(a, k) || e.0 == k
  {
    if KeyExists(a, k) {
      var i :| 0 <= i < |a| && a[i].0 == k;
      assert (a + [e])[i].0 == k;
    }
    if e.0 == k {
      assert (a + [e])[|a|].0 == k;
    }
  }

  /** One step of `MergeInto` when the head's string key is new. */
  lemma MergeStep(acc: PhpArray, next: int, b: seq<Entry>)
    requires PosKeysBelow(acc, next) && b != []
    requires b[0].0.Name? ==> !KeyExists(acc, b[0].0)
    ensures b[0].0.Name? ==>
      && DistinctKeys(acc + [b[0]]) && PosKeysBelow(acc + [b[0]], next)
      && MergeInto(acc, next, b) == MergeInto(acc + [b[0]], next, b[1..])
    ensures b[0].0.Pos? ==>
      && DistinctKeys(acc + [(Pos(next), b[0].1)]) && PosKeysBelow(acc + [(Pos(next), b[0].1)], next + 1)
      && MergeInto(acc, next, b) == MergeInto(acc + [(Pos(next), b[0].1)], next + 1, b[1..])
  {
    if b[0].0.Name? {
      assert Put(acc, b[0].0, b[0].1) == acc + [b[0]];
    }
  }

  /** The clash-freedom hypothesis of `MergeWithoutClash` carries over to
      the tail once the head has been appended. */
  lemma NoClashTail(acc: PhpArray, e: Entry, b: PhpArray, b': seq<Entry>)
    requires b != [] && b' == b[1..] && (e.0.Pos? || e.0 == b[0].0)
    requires forall i | 0 <= i < |b| && b[i].0.Name? :: !KeyExists(acc, b[i].0)
    ensures forall i | 0 <= i < |b'| && b'[i].0.Name? :: !KeyExists(acc + [e], b'[i].0)
  {
    forall i | 0 <= i < |b'| && b'[i].0.Name?
      ensures !KeyExists(acc + [e], b'[i].0)
    {
      assert b'[i] == b[i + 1];
      KeyExistsAppend(acc, e, b'[i].0);
    }
  }

  /** Associativity of concatenation, stated as a lemma only so that the
      solver applies it in `MergeWithoutClash` without the cost of
      rediscovering it there. */
  lemma AppendAssoc(a: seq<Entry>, e: Entry, c: seq<Entry>)
    ensures (a + [e]) + c == a + ([e] + c)
  {
  }

  /** One unfolding of `Renumber`, kept out of `MergeWithoutClash` for the
      same reason. */
  lemma RenumberHead(b: seq<Entry>, next: int)
    requires b != []
    ensures Renumber(b, next) ==
      [if b[0].0.Pos? then (Pos(next), b[0].1) else b[0]]
      + Renumber(b[1..], if b[0].0.Pos? then next + 1 else next)
  {
  }

  /** When no string key of `b` is already in `acc`, merging appends `b`
      renumbered from `next`: nothing is overwritten and the order of `b`
      is kept. */
  lemma {:induction false} MergeWithoutClash(acc: PhpArray, next: int, b: PhpArray)
    requires PosKeysBelow(acc, next)
    requires forall i | 0 <= i < |b| && b[i].0.Name? :: !KeyExists(acc, b[i].0)
    ensures MergeInto(acc, next, b) == acc + Renumber(b, next)
    decreases |b|
  {
    if b != [] {
      var b' := b[1..];
      var e := if b[0].0.Pos? then (Pos(next), b[0].1) else b[0];
      var next' := if b[0].0.Pos? then next + 1 else next;
      MergeStep(acc, next, b);
      NoClashTail(acc, e, b, b');
      var acc': PhpArray := acc + [e];
      MergeWithoutClash(acc', next', b');
      RenumberHead(b, next);
      AppendAssoc(acc, e, Renumber(b', next'));
    }
  }

  /** `$collection->reject(fn ($v) => $v === null)->all()`: drops exactly
      the entries whose value is null and keeps the others, with their keys. */
  function RejectNull(a: PhpArray): (r: PhpArray)
    ensures forall i | 0 <= i < |r| :: KeyExists(a, r[i].0) && Get(a, r[i].0) == r[i].1 != Null
    decreases |a|
  {
    if a == [] then []
    else
      var rest := RejectNull(a[1..]);
      assert forall i | 0 <= i < |rest| :: rest[i].0 != a[0].0;
      if a[0].1 == Null then rest else [a[0]] + rest
  }

  /** A key of `reject`'s result is a key of its input, with the same,
      non-null, value. */
  lemma RejectNullSound(a: PhpArray, k: Key)
    requires KeyExists(RejectNull(a), k)
    ensures KeyExists(a, k) && Get(a, k) != Null && Get(RejectNull(a), k) == Get(a, k)
  {
    var r := RejectNull(a);
    var i :| 0 <= i < |r| && r[i].0 == k;
  }

  /** Every key whose value is not null survives `reject`. */
  lemma {:induction false} RejectNullComplete(a: PhpArray, k: Key)
    requires KeyExists(a, k) && Get(a, k) != Null
    ensures KeyExists(RejectNull(a), k)
    decreases |a|
  {
    var r := RejectNull(a);
    RejectNullHead(a);
    if a[0].0 == k {
      assert r[0].0 == k;
    } else {
      var j :| 0 <= j < |a| && a[j].0 == k;
      assert a[1..][j - 1].0 == k;
      assert Get(a[1..], k) == Get(a, k);
      RejectNullComplete(a[1..], k);
      var rest := RejectNull(a[1..]);
      var m :| 0 <= m < |rest| && rest[m].0 == k;
      if a[0].1 != Null {
        assert r[1 + m] == rest[m];
      }
    }
  }

  /** A key survives `reject` exactly when its value is not null, and it
      keeps its value. */
  lemma RejectNullKeys(a: PhpArray, k: Key)
    ensures KeyExists(RejectNull(a), k) <==> KeyExists(a, k) && Get(a, k) != Null
    ensures KeyExists(RejectNull(a), k) ==> Get(RejectNull(a), k) == Get(a, k)
  {
    if KeyExists(RejectNull(a), k) {
      RejectNullSound(a, k);
    }
    if KeyExists(a, k) && Get(a, k) != Null {
      RejectNullComplete(a, k);
    }
  }

  lemma RejectNullHead(a: PhpArray)
    requires a != []
    ensures RejectNull(a) == if a[0].1 == Null then RejectNull(a[1..]) else [a[0]] + RejectNull(a[1..])
  {
  }

  /** A key of the tail other than the head's sits one place later in `a`. */
  lemma IndexOfTail(a: PhpArray, k: Key)
    requires a != [] && KeyExists(a[1..], k)
    ensures KeyExists(a, k) && k != a[0].0 && IndexOf(a, k) == 1 + IndexOf(a[1..], k)
  {
    var j :| 0 <= j < |a[1..]| && a[1..][j].0 == k;
    assert a[j + 1].0 == k;
  }

  /** An entry that `reject` keeps from the tail of `a`. */
  lemma RejectNullTailEntry(a: PhpArray, j: nat) returns (j': nat)
    requires a != [] && j < |RejectNull(a)|
    requires a[0].1 == Null || 0 < j
    ensures j' < |RejectNull(a[1..])| && RejectNull(a)[j] == RejectNull(a[1..])[j']
    ensures j' == if a[0].1 == Null then j else j - 1
    ensures KeyExists(a[1..], RejectNull(a)[j].0) && KeyExists(a, RejectNull(a)[j].0)
    ensures IndexOf(a, RejectNull(a)[j].0) == 1 + IndexOf(a[1..], RejectNull(a)[j].0)
  {
    RejectNullHead(a);
    var rest := RejectNull(a[1..]);
    j' := if a[0].1 == Null then j else j - 1;
    IndexOfTail(a, rest[j'].0);
  }

  /** `reject` keeps the surviving entries in their original order. */
  lemma {:induction false} RejectNullKeepsOrder(a: PhpArray, i: nat, j: nat)
    requires i < j < |RejectNull(a)|
    ensures KeyExists(a, RejectNull(a)[i].0) && KeyExists(a, RejectNull(a)[j].0)
    ensures IndexOf(a, RejectNull(a)[i].0) < IndexOf(a, RejectNull(a)[j].0)
    decreases |a|
  {
    var j' := RejectNullTailEntry(a, j);
    if a[0].1 != Null && i == 0 {
      RejectNullHead(a);
    } else {
      var i' := RejectNullTailEntry(a, i);
      RejectNullKeepsOrder(a[1..], i', j');
    }
  }
}
