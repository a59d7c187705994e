/**
  Small vocabulary shared by every module: optional values, bytes, sequences,
  and slot pools (sequences whose deleted entries stay behind as holes).
 */
module Basics {

  datatype Option<+T> = None | Some(value: T)

  type Byte = b: int | 0 <= b < 256
  type Bytes = seq<Byte>

  ghost predicate Distinct<T>(s: seq<T>) {
    forall i, j :: 0 <= i < j < |s| ==> s[i] != s[j]
  }

  function Elements<T>(s: seq<T>): set<T> {
    set x | x in s
  }

  function Flatten<T>(pieces: seq<seq<T>>): seq<T> {
    if pieces == [] then [] else Flatten(pieces[..|pieces| - 1]) + pieces[|pieces| - 1]
  }

  lemma {:induction false} SubsetSize<T>(a: set<T>, b: set<T>)
    requires a <= b
    ensures |a| <= |b|
    decreases |a|
  {
    if a != {} {
      var x :| x in a;
      SubsetSize(a - {x}, b - {x});
    }
  }

  /** The slots of `pool` that are not holes, counted. */
  function LiveCount<T>(pool: seq<Option<T>>): nat {
    if pool == [] then 0
    else LiveCount(pool[..|pool| - 1]) + if pool[|pool| - 1].Some? then 1 else 0
  }

  predicate IsLive<T>(pool: seq<Option<T>>, i: int) {
    0 <= i < |pool| && pool[i].Some?
  }

  lemma {:induction false} LiveCountBound<T>(pool: seq<Option<T>>)
    ensures LiveCount(pool) <= |pool|
  {
    if pool != [] { LiveCountBound(pool[..|pool| - 1]); }
  }

  ghost predicate Full<T>(pool: seq<Option<T>>) {
    forall i :: 0 <= i < |pool| ==> pool[i].Some?
  }

  lemma {:induction false} FullFront<T>(pool: seq<Option<T>>)
    requires pool != []
    ensures Full(pool) <==> Full(pool[..|pool| - 1]) && pool[|pool| - 1].Some?
  {
    var front := pool[..|pool| - 1];
    if Full(front) && pool[|pool| - 1].Some? {
      forall i | 0 <= i < |pool| ensures pool[i].Some? {
        if i < |front| { assert front[i].Some?; }
      }
    }
  }

  /** A pool counts as many live slots as it has slots exactly when it has no hole. */
  lemma {:induction false} LiveCountFull<T>(pool: seq<Option<T>>)
    ensures LiveCount(pool) == |pool| <==> Full(pool)
  {
    if pool != [] {
      hide Full;
      var front := pool[..|pool| - 1];
      LiveCountFull(front);
      LiveCountBound(front);
      FullFront(pool);
    }
  }

  /** Emptying a live slot lowers the count by one. */
  lemma {:induction false} LiveCountDrop<T>(pool: seq<Option<T>>, i: int)
    requires IsLive(pool, i)
    ensures LiveCount(pool[i := None]) == LiveCount(pool) - 1
  {
    var n := |pool| - 1;
    if i == n {
      assert pool[i := None][..n] == pool[..n];
    } else {
      assert pool[i := None][..n] == pool[..n][i := None];
      LiveCountDrop(pool[..n], i);
    }
  }

  predicate Continuation(b: Byte) { 128 <= b < 192 }

  /** The bytes are well-formed UTF-8 (table 3-7 of the Unicode Standard). */
  predicate ValidUtf8(s: Bytes) {
    if s == [] then true
    else if s[0] < 128 then ValidUtf8(s[1..])
    else if 194 <= s[0] < 224 && |s| >= 2 then Continuation(s[1]) && ValidUtf8(s[2..])
    else if 224 <= s[0] < 240 && |s| >= 3 then
      && Continuation(s[1]) && Continuation(s[2])
      && (s[0] == 224 ==> s[1] >= 160) && (s[0] == 237 ==> s[1] < 160)
      && ValidUtf8(s[3..])
    else if 240 <= s[0] < 245 && |s| >= 4 then
      && Continuation(s[1]) && Continuation(s[2]) && Continuation(s[3])
      && (s[0] == 240 ==> s[1] >= 144) && (s[0] == 244 ==> s[1] < 144)
      && ValidUtf8(s[4..])
    else false
  }

  /** A 32-bit number in little-endian bytes. */
  function ToLe(n: nat): (b: Bytes)
    ensures |b| == 4
  {
    [n % 256, n / 256 % 256, n / 65536 % 256, n / 16777216 % 256]
  }

  function FromLe(b: Bytes): nat
    requires |b| == 4
  {
    b[0] as int + 256 * (b[1] as int) + 65536 * (b[2] as int) + 16777216 * (b[3] as int)
  }

  lemma {:induction false} LeRoundTrip(n: nat)
    ensures FromLe(ToLe(n)) == n % 4294967296
  {
    assert n / 65536 == n / 256 / 256;
    assert n / 16777216 == n / 65536 / 256;
    assert n / 4294967296 == n / 16777216 / 256;
  }
}
