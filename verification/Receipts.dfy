/**
  Retrieval receipts: each one seals the hash of the one before it, so the head
  of a log commits to the whole history, and a receipt commits to the text of
  the sections it cites.
 */
module Receipts {
  import Headings
  import opened Text

  type Hash = string -> string

  const GENESIS: string := Zeros(64)

  /** The separator between sealed fields. */
  const US: char := '\U{1f}'

  /** A hash without collisions that never gives the genesis value, written in
      characters other than the separator. */
  ghost predicate Ideal(h: Hash) {
    && (forall a, b :: h(a) == h(b) ==> a == b)
    && (forall a :: h(a) != GENESIS && Free(US, h(a)))
  }

  // ---- text ---------------------------------------------------------------

  function RangeText(r: (nat, nat)): string {
    Decimal(r.0) + "-" + Decimal(r.1)
  }

  function RangeTexts(rs: seq<(nat, nat)>): seq<string> {
    seq(|rs|, i requires 0 <= i < |rs| => RangeText(rs[i]))
  }

  lemma {:induction false} RangeTextShape(r: (nat, nat))
    ensures RangeText(r) != "" && Free(';', RangeText(r)) && Free(US, RangeText(r))
    ensures Free('-', Decimal(r.0)) && Free('-', Decimal(r.1))
  {
    DecimalDigits(r.0);
    DecimalDigits(r.1);
  }

  /** Two numbers in decimal with a dash between them. */
  ghost predicate WritesRange(r: (nat, nat), s: string) {
    exists a, b :: IsDecimal(a, r.0) && IsDecimal(b, r.1) && s == a + "-" + b
  }

  lemma {:induction false} RangeTextsAre(rs: seq<(nat, nat)>)
    ensures |RangeTexts(rs)| == |rs| && forall i :: 0 <= i < |rs| ==> WritesRange(rs[i], RangeTexts(rs)[i])
  {
    forall i | 0 <= i < |rs| ensures WritesRange(rs[i], RangeTexts(rs)[i]) {
      DecimalIs(rs[i].0);
      DecimalIs(rs[i].1);
      assert RangeTexts(rs)[i] == Decimal(rs[i].0) + "-" + Decimal(rs[i].1);
    }
  }

  lemma {:induction false} RangeTextInjective(r: (nat, nat), s: (nat, nat))
    requires RangeText(r) == RangeText(s)
    ensures r == s
  {
    RangeTextShape(r);
    RangeTextShape(s);
    assert RangeText(r) == Decimal(r.0) + ("-" + Decimal(r.1)) && RangeText(s) == Decimal(s.0) + ("-" + Decimal(s.1));
    CutUnique('-', Decimal(r.0), "-" + Decimal(r.1), Decimal(s.0), "-" + Decimal(s.1));
    assert Decimal(r.1) == ("-" + Decimal(r.1))[1..] && Decimal(s.1) == ("-" + Decimal(s.1))[1..];
    DecimalInjective(r.0, s.0);
    DecimalInjective(r.1, s.1);
  }

  // ---- receipts -----------------------------------------------------------

  datatype Receipt = Receipt(
    query: string,
    queryHash: string,
    visited: seq<string>,
    ranges: seq<(nat, nat)>,
    evidenceHash: string,
    answerHash: string,
    prevHash: string,
    receiptHash: string)

  function SealParts(prev: string, r: Receipt): seq<string> {
    [prev, r.queryHash, Join(",", r.visited), Join(";", RangeTexts(r.ranges)), r.evidenceHash, r.answerHash]
  }

  /** The text whose hash is the receipt's hash. */
  function Seal(prev: string, r: Receipt): string {
    Join([US], SealParts(prev, r))
  }

  function MakeReceipt(h: Hash, query: string, visited: seq<string>, ranges: seq<(nat, nat)>, evidence: string, answer: string, prev: string): Receipt {
    var r := Receipt(query, h(query), visited, ranges, h(evidence), h(answer), prev, "");
    r.(receiptHash := h(Seal(prev, r)))
  }

  function Head(receipts: seq<Receipt>): string {
    if receipts == [] then GENESIS else receipts[|receipts| - 1].receiptHash
  }

  /** Every link seals the one before it. */
  ghost predicate Chained(h: Hash, receipts: seq<Receipt>) {
    forall i :: 0 <= i < |receipts| ==> LinkedAt(h, receipts, i)
  }

  predicate LinkedAt(h: Hash, receipts: seq<Receipt>, i: nat)
    requires i < |receipts|
  {
    Linked(h, Head(receipts[..i]), receipts[i])
  }

  predicate Linked(h: Hash, prev: string, r: Receipt) {
    r.prevHash == prev && r.receiptHash == h(Seal(prev, r))
  }

  class ReceiptLog {
    const hash: Hash
    var receipts: seq<Receipt>

    constructor (hash: Hash, receipts: seq<Receipt>)
      ensures this.hash == hash && this.receipts == receipts
    {
      this.hash, this.receipts := hash, receipts;
    }

    /** An appended receipt links on, so the log verifies exactly when it did before. */
    method Append(query: string, visited: seq<string>, ranges: seq<(nat, nat)>, evidence: string, answer: string) returns (r: Receipt)
      modifies this
      ensures r == MakeReceipt(hash, query, visited, ranges, evidence, answer, Head(old(receipts)))
      ensures r.query == query && r.visited == visited && r.ranges == ranges && r.prevHash == Head(old(receipts))
      ensures r.queryHash == hash(query) && r.evidenceHash == hash(evidence) && r.answerHash == hash(answer)
      ensures receipts == old(receipts) + [r]
      ensures Chained(hash, receipts) <==> Chained(hash, old(receipts))
    {
      r := MakeReceipt(hash, query, visited, ranges, evidence, answer, Head(receipts));
      ChainedPush(hash, receipts, r);
      receipts := receipts + [r];
    }

    method VerifyChain() returns (ok: bool)
      ensures ok <==> Chained(hash, receipts)
    {
      var prev := GENESIS;
      for i := 0 to |receipts|
        invariant prev == Head(receipts[..i])
        invariant forall k :: 0 <= k < i ==> LinkedAt(hash, receipts, k)
      {
        var r := receipts[i];
        assert LinkedAt(hash, receipts, i) <==> Linked(hash, prev, r);
        if hash(Seal(prev, r)) != r.receiptHash || r.prevHash != prev { return false; }
        prev := r.receiptHash;
        assert receipts[..i + 1][i] == r;
      }
      return true;
    }
  }

  lemma {:induction false} ChainedPush(h: Hash, rs: seq<Receipt>, r: Receipt)
    ensures Chained(h, rs + [r]) <==> Chained(h, rs) && Linked(h, Head(rs), r)
  {
    var more := rs + [r];
    assert forall i :: 0 <= i <= |rs| ==> more[..i] == rs[..i];
    assert rs[..|rs|] == rs;
    assert LinkedAt(h, more, |rs|) <==> Linked(h, Head(rs), r);
    forall i | 0 <= i < |rs| ensures LinkedAt(h, more, i) <==> LinkedAt(h, rs, i) { }
    hide LinkedAt;
    if Chained(h, rs) && Linked(h, Head(rs), r) {
      forall i | 0 <= i < |more| ensures LinkedAt(h, more, i) { if i < |rs| { assert LinkedAt(h, rs, i); } }
    }
    if Chained(h, more) {
      forall i | 0 <= i < |rs| ensures LinkedAt(h, rs, i) { assert LinkedAt(h, more, i); }
    }
  }

  // ---- the head commits to the history ------------------------------------

  lemma {:induction false} HeadFree(h: Hash, rs: seq<Receipt>)
    requires Ideal(h) && Chained(h, rs)
    ensures Free(US, Head(rs)) && (rs != [] <==> Head(rs) != GENESIS)
  {
    hide Seal;
    if rs != [] {
      var n := |rs| - 1;
      assert LinkedAt(h, rs, n);
    }
  }

  /** Equal sealed texts have equal previous hashes, whatever the other fields hold. */
  lemma {:induction false} SealPrev(p: string, r: Receipt, q: string, s: Receipt)
    requires Free(US, p) && Free(US, q) && Seal(p, r) == Seal(q, s)
    ensures p == q
  {
    var a, b := SealParts(p, r), SealParts(q, s);
    assert |a| == 6 && |b| == 6 && a[0] == p && b[0] == q;
    hide SealParts, Join;
    JoinCut(US, a);
    JoinCut(US, b);
    CutUnique(US, p, Tail(US, a), q, Tail(US, b));
  }

  /** Up to position `i` the logs have the same head, and there they seal the same text. */
  predicate SameSealAt(a: seq<Receipt>, b: seq<Receipt>, i: nat)
    requires i < |a| && i < |b|
  {
    Head(a[..i]) == Head(b[..i]) && Seal(Head(a[..i]), a[i]) == Seal(Head(b[..i]), b[i])
  }

  /** Two verified logs with the same head are equally long and have sealed the same
      texts all the way down. */
  lemma {:induction false} HeadCommits(h: Hash, a: seq<Receipt>, b: seq<Receipt>)
    requires Ideal(h) && Chained(h, a) && Chained(h, b) && Head(a) == Head(b)
    ensures |a| == |b|
    ensures forall i :: 0 <= i < |a| ==> SameSealAt(a, b, i)
  {
    HeadFree(h, a);
    HeadFree(h, b);
    if a != [] {
      hide Seal, Chained, Ideal, Free, Linked, SameSealAt;
      var m, n := |a| - 1, |b| - 1;
      var fa, fb := a[..m], b[..n];
      LastLink(h, a);
      LastLink(h, b);
      assert Seal(Head(fa), a[m]) == Seal(Head(fb), b[n]) by { SameHash(h, Seal(Head(fa), a[m]), Seal(Head(fb), b[n])); }
      HeadFree(h, fa);
      HeadFree(h, fb);
      SealPrev(Head(fa), a[m], Head(fb), b[n]);
      HeadCommits(h, fa, fb);
      SealsExtend(fa, fb, a, b);
    }
  }

  lemma {:induction false} SealsExtend(fa: seq<Receipt>, fb: seq<Receipt>, a: seq<Receipt>, b: seq<Receipt>)
    requires |fa| == |fb| && fa < a && fb < b && |a| == |b| == |fa| + 1
    requires forall i :: 0 <= i < |fa| ==> SameSealAt(fa, fb, i)
    requires Head(fa) == Head(fb) && Seal(Head(fa), a[|fa|]) == Seal(Head(fb), b[|fb|])
    ensures forall i :: 0 <= i < |a| ==> SameSealAt(a, b, i)
  {
    hide Seal;
    forall i | 0 <= i <= |fa| ensures SameSealAt(a, b, i) {
      assert a[..i] == fa[..i] && b[..i] == fb[..i];
      if i == |fa| { assert fa[..i] == fa && fb[..i] == fb; } else { assert SameSealAt(fa, fb, i); }
    }
  }

  lemma {:induction false} SameHash(h: Hash, x: string, y: string)
    requires Ideal(h) && h(x) == h(y)
    ensures x == y
  {
  }

  lemma {:induction false} LastLink(h: Hash, rs: seq<Receipt>)
    requires Chained(h, rs) && rs != []
    ensures Chained(h, rs[..|rs| - 1]) && Linked(h, Head(rs[..|rs| - 1]), rs[|rs| - 1])
  {
    assert rs == rs[..|rs| - 1] + [rs[|rs| - 1]];
    ChainedPush(h, rs[..|rs| - 1], rs[|rs| - 1]);
  }

  /** The hashes of a receipt are free of the separator. */
  predicate Hashed(r: Receipt) {
    Free(US, r.queryHash) && Free(US, r.evidenceHash) && Free(US, r.answerHash)
  }

  predicate SameSealed(r: Receipt, s: Receipt) {
    && r.queryHash == s.queryHash && r.visited == s.visited && r.ranges == s.ranges
    && r.evidenceHash == s.evidenceHash && r.answerHash == s.answerHash
  }

  lemma {:induction false} SealShape(p: string, r: Receipt)
    ensures Seal(p, r) == p + ([US] + (r.queryHash + ([US] + (Join(",", r.visited) + [US] + Join(";", RangeTexts(r.ranges)) + [US] + r.evidenceHash + [US] + r.answerHash))))
  {
    var parts := SealParts(p, r);
    assert parts[1..][1..] == parts[2..] && parts[2..][1..] == parts[3..] && parts[3..][1..] == parts[4..] && parts[4..][1..] == parts[5..];
    assert Join([US], parts[5..]) == parts[5];
    assert Join([US], parts[4..]) == parts[4] + [US] + parts[5];
    assert Join([US], parts[3..]) == parts[3] + [US] + parts[4] + [US] + parts[5];
    assert Join([US], parts[2..]) == parts[2] + [US] + parts[3] + [US] + parts[4] + [US] + parts[5];
    assert Join([US], parts[1..]) == parts[1] + [US] + Join([US], parts[2..]);
  }

  lemma {:induction false} RangesFree(ranges: seq<(nat, nat)>)
    ensures Free(US, Join(";", RangeTexts(ranges)))
  {
    forall i | 0 <= i < |ranges| ensures Free(US, RangeTexts(ranges)[i]) { RangeTextShape(ranges[i]); }
    JoinFree(US, ";", RangeTexts(ranges));
  }

  /** What the sealed text determines, whatever the ids hold: everything but how the
      joined ids are cut up. */
  lemma {:induction false} SealIff(p: string, r: Receipt, q: string, s: Receipt)
    requires Free(US, p) && Free(US, q) && Hashed(r) && Hashed(s)
    ensures Seal(p, r) == Seal(q, s) <==>
      && p == q && r.queryHash == s.queryHash && r.ranges == s.ranges
      && r.evidenceHash == s.evidenceHash && r.answerHash == s.answerHash
      && Join(",", r.visited) == Join(",", s.visited)
  {
    SealShape(p, r);
    SealShape(q, s);
    hide Seal;
    if Seal(p, r) == Seal(q, s) {
      var v, w := Join(",", r.visited), Join(",", s.visited);
      var x, y := Join(";", RangeTexts(r.ranges)), Join(";", RangeTexts(s.ranges));
      RangesFree(r.ranges);
      RangesFree(s.ranges);
      var a2, b2 := v + [US] + x + [US] + r.evidenceHash + [US] + r.answerHash, w + [US] + y + [US] + s.evidenceHash + [US] + s.answerHash;
      var a1, b1 := r.queryHash + ([US] + a2), s.queryHash + ([US] + b2);
      hide Join, RangeTexts, Free;
      CutUnique(US, p, [US] + a1, q, [US] + b1);
      assert a1 == ([US] + a1)[1..] && b1 == ([US] + b1)[1..];
      CutUnique(US, r.queryHash, [US] + a2, s.queryHash, [US] + b2);
      assert a2 == ([US] + a2)[1..] && b2 == ([US] + b2)[1..];
      CutLast(US, v + [US] + x + [US] + r.evidenceHash, r.answerHash, w + [US] + y + [US] + s.evidenceHash, s.answerHash);
      CutLast(US, v + [US] + x, r.evidenceHash, w + [US] + y, s.evidenceHash);
      CutLast(US, v, x, w, y);
      RangesInjective(r.ranges, s.ranges);
    }
  }

  // ---- which lists of ids a seal determines -------------------------------

  /** The form an id list has to have to be recoverable from its joined text. */
  predicate Canonical(v: seq<string>) {
    v != [""] && forall i :: 0 <= i < |v| ==> Free(',', v[i])
  }

  /** The canonical list with the given joined text. */
  function CanonicalOf(joined: string): seq<string> {
    if joined == "" then [] else SplitOn(',', joined)
  }

  lemma {:induction false} CanonicalOfJoin(joined: string)
    ensures Canonical(CanonicalOf(joined)) && Join(",", CanonicalOf(joined)) == joined
  {
    if joined != "" { JoinSplit(',', joined); }
  }

  lemma {:induction false} CanonicalUnique(v: seq<string>, w: seq<string>)
    requires Canonical(v) && Canonical(w) && Join(",", v) == Join(",", w)
    ensures v == w
  {
    if v != [] { JoinEmpty(',', v); }
    if w != [] { JoinEmpty(',', w); }
    JoinInjective(',', v, w);
  }

  /** An id list is canonical if and only if it is the only canonical list that joins to
      the same text: a list that is not always shares its seal with another. */
  lemma {:induction false} CanonicalIff(v: seq<string>)
    ensures Canonical(v) <==> forall w :: Canonical(w) && Join(",", w) == Join(",", v) ==> w == v
  {
    CanonicalOfJoin(Join(",", v));
    hide Join, CanonicalOf;
    if Canonical(v) {
      forall w | Canonical(w) && Join(",", w) == Join(",", v) ensures w == v { CanonicalUnique(v, w); }
    }
  }

  function NodeIds(nodes: seq<nat>): seq<string> {
    seq(|nodes|, i requires 0 <= i < |nodes| => Headings.NodeId(nodes[i]))
  }

  /** The ids the tree index gives its sections are canonical, so its receipts are safe. */
  lemma {:induction false} NodeIdsCanonical(nodes: seq<nat>)
    ensures Canonical(NodeIds(nodes))
  {
    var v := NodeIds(nodes);
    forall i | 0 <= i < |v| ensures Free(',', v[i]) && v[i] != "" { PaddedDigits(nodes[i] + 1, 4); }
    assert |v| == 1 ==> v == [v[0]];
  }

  /** For canonical ids the sealed text determines every sealed field, and is determined
      by them. */
  lemma {:induction false} SealedFields(p: string, r: Receipt, q: string, s: Receipt)
    requires Free(US, p) && Free(US, q) && Hashed(r) && Hashed(s) && Canonical(r.visited) && Canonical(s.visited)
    ensures Seal(p, r) == Seal(q, s) <==> p == q && SameSealed(r, s)
  {
    hide Seal, Join, Canonical;
    SealIff(p, r, q, s);
    if Join(",", r.visited) == Join(",", s.visited) { CanonicalUnique(r.visited, s.visited); }
  }

  lemma {:induction false} RangesInjective(a: seq<(nat, nat)>, b: seq<(nat, nat)>)
    requires Join(";", RangeTexts(a)) == Join(";", RangeTexts(b))
    ensures a == b
  {
    var s, t := RangeTexts(a), RangeTexts(b);
    forall i | 0 <= i < |a| ensures Free(';', s[i]) && s[i] != "" { RangeTextShape(a[i]); }
    forall i | 0 <= i < |b| ensures Free(';', t[i]) && t[i] != "" { RangeTextShape(b[i]); }
    if a != [] { JoinEmpty(';', s); }
    if b != [] { JoinEmpty(';', t); }
    JoinInjective(';', s, t);
    forall i | 0 <= i < |a| ensures a[i] == b[i] {
      assert s[i] == t[i];
      RangeTextInjective(a[i], b[i]);
    }
  }

  lemma {:induction false} ChainedPrefix(h: Hash, rs: seq<Receipt>, i: nat)
    requires Chained(h, rs) && i <= |rs|
    ensures Chained(h, rs[..i])
  {
    hide Linked;
    forall k | 0 <= k < i ensures LinkedAt(h, rs[..i], k) {
      assert LinkedAt(h, rs, k) && rs[..i][..k] == rs[..k];
    }
  }

  /** The head of a verified log fixes every sealed field of every receipt. */
  lemma {:induction false} HeadCommitsFields(h: Hash, a: seq<Receipt>, b: seq<Receipt>)
    requires Ideal(h) && Chained(h, a) && Chained(h, b) && Head(a) == Head(b)
    requires forall i :: 0 <= i < |a| ==> Hashed(a[i]) && Canonical(a[i].visited)
    requires forall i :: 0 <= i < |b| ==> Hashed(b[i]) && Canonical(b[i].visited)
    ensures |a| == |b| && forall i :: 0 <= i < |a| ==> SameSealed(a[i], b[i]) && a[i].prevHash == b[i].prevHash
  {
    hide Seal, SameSealed, Hashed, Canonical;
    HeadCommits(h, a, b);
    forall i | 0 <= i < |a| ensures SameSealed(a[i], b[i]) && a[i].prevHash == b[i].prevHash {
      assert LinkedAt(h, a, i) && LinkedAt(h, b, i) && SameSealAt(a, b, i);
      ChainedPrefix(h, a, i);
      HeadFree(h, a[..i]);
      SealedFields(Head(a[..i]), a[i], Head(b[..i]), b[i]);
    }
  }

  /** Without canonical ids it does not: a verified log of one receipt whose ids are not
      canonical has the same head as another that cites other ids. */
  lemma {:induction false} HeadDoesNotCommit(h: Hash, query: string, v: seq<string>, ranges: seq<(nat, nat)>, evidence: string, answer: string)
    requires !Canonical(v)
    ensures var w := CanonicalOf(Join(",", v));
      var a, b := [MakeReceipt(h, query, v, ranges, evidence, answer, GENESIS)], [MakeReceipt(h, query, w, ranges, evidence, answer, GENESIS)];
      Chained(h, a) && Chained(h, b) && Head(a) == Head(b) && a[0].visited == v != w == b[0].visited
  {
    var w := CanonicalOf(Join(",", v));
    CanonicalOfJoin(Join(",", v));
    var r, s := MakeReceipt(h, query, v, ranges, evidence, answer, GENESIS), MakeReceipt(h, query, w, ranges, evidence, answer, GENESIS);
    assert SealParts(GENESIS, r) == SealParts(GENESIS, s);
    OneLink(h, r);
    OneLink(h, s);
  }

  lemma {:induction false} OneLink(h: Hash, r: Receipt)
    requires Linked(h, GENESIS, r)
    ensures Chained(h, [r]) && Head([r]) == r.receiptHash
  {
    hide Linked;
    assert [r][..0] == [];
  }

  /** Such logs exist: one id with a comma in it against two ids. */
  lemma {:induction false} CommaIsAmbiguous(h: Hash, query: string, ranges: seq<(nat, nat)>, evidence: string, answer: string)
    ensures var a, b := [MakeReceipt(h, query, ["a,b"], ranges, evidence, answer, GENESIS)], [MakeReceipt(h, query, ["a", "b"], ranges, evidence, answer, GENESIS)];
      Chained(h, a) && Chained(h, b) && Head(a) == Head(b) && a[0].visited != b[0].visited
  {
    var v, w := ["a,b"], ["a", "b"];
    assert v[0][1] == ',' && !Canonical(v) && Canonical(w);
    assert w[1..] == ["b"] && Join(",", w) == "a" + "," + "b" == "a,b" == Join(",", v);
    CanonicalOfJoin("a,b");
    CanonicalUnique(CanonicalOf("a,b"), w);
    hide Chained, MakeReceipt, Head, Canonical, Join;
    HeadDoesNotCommit(h, query, v, ranges, evidence, answer);
  }

  /** Nor with the separator inside a hash: it can be taken for part of the ids. */
  lemma {:induction false} SeparatorIsAmbiguous(p: string, r: Receipt, x: string, y: string)
    ensures Seal(p, r.(queryHash := x + [US] + y, visited := [])) == Seal(p, r.(queryHash := x, visited := [y + [US]]))
  {
    var a, b := r.(queryHash := x + [US] + y, visited := []), r.(queryHash := x, visited := [y + [US]]);
    SealShape(p, a);
    SealShape(p, b);
    assert Join(",", a.visited) == "" && Join(",", b.visited) == y + [US];
    hide *;
    SameText(p, x, y, Join(";", RangeTexts(r.ranges)), r.evidenceHash, r.answerHash);
  }

  lemma {:induction false} SameText(p: string, x: string, y: string, z: string, e: string, a: string)
    ensures p + ([US] + ((x + [US] + y) + ([US] + ("" + [US] + z + [US] + e + [US] + a)))) ==
      p + ([US] + (x + ([US] + ((y + [US]) + [US] + z + [US] + e + [US] + a))))
  {
    var u: string := [US];
    var rest := z + u + e + u + a;
    assert "" + u + z + u + e + u + a == u + rest;
    assert (y + u) + u + z + u + e + u + a == y + u + u + rest;
    assert (x + u + y) + (u + (u + rest)) == x + (u + (y + u + u + rest));
  }

  // ---- evidence -----------------------------------------------------------

  datatype Cited = Cited(breadcrumb: string, text: string)

  /** The part of the index a receipt depends on. */
  type Index = map<string, Cited>

  function Part(c: Cited): string {
    "[" + c.breadcrumb + "]\n" + c.text
  }

  function Parts(index: Index, visited: seq<string>): seq<string>
    requires forall i :: 0 <= i < |visited| ==> visited[i] in index
  {
    seq(|visited|, i requires 0 <= i < |visited| => Part(index[visited[i]]))
  }

  function Evidence(index: Index, visited: seq<string>): string
    requires forall i :: 0 <= i < |visited| ==> visited[i] in index
  {
    Join("\n\n", Parts(index, visited))
  }

  /** The cited sections still exist and read as they did. */
  predicate Verifies(h: Hash, index: Index, r: Receipt) {
    (forall i :: 0 <= i < |r.visited| ==> r.visited[i] in index) && h(Evidence(index, r.visited)) == r.evidenceHash
  }

  /** Each cited section contributes its breadcrumb in brackets, a line end and its text;
      a blank line stands between them. */
  lemma {:induction false} EvidenceIs(index: Index, visited: seq<string>, id: string)
    requires id in index && forall i :: 0 <= i < |visited| ==> visited[i] in index
    ensures Evidence(index, []) == ""
    ensures Evidence(index, visited + [id]) ==
      (if visited == [] then "" else Evidence(index, visited) + "\n\n") + "[" + index[id].breadcrumb + "]\n" + index[id].text
  {
    var part := "[" + index[id].breadcrumb + "]\n" + index[id].text;
    assert Parts(index, visited + [id]) == Parts(index, visited) + [part];
    assert Parts(index, []) == [];
    if visited == [] {
      assert Parts(index, visited) + [part] == [part];
      assert "" + "[" + index[id].breadcrumb + "]\n" + index[id].text == part;
    } else {
      JoinConcat("\n\n", Parts(index, visited), [part]);
      var e := Evidence(index, visited) + "\n\n";
      assert e + "[" + index[id].breadcrumb + "]\n" + index[id].text == e + part;
    }
  }

  /** A receipt made from one index verifies against another if and only if that has all
      the cited sections and the evidence read from it is the same. */
  lemma {:induction false} VerifiesIff(h: Hash, index: Index, other: Index, query: string, visited: seq<string>, ranges: seq<(nat, nat)>, answer: string, prev: string)
    requires Ideal(h) && forall i :: 0 <= i < |visited| ==> visited[i] in index
    ensures var r := MakeReceipt(h, query, visited, ranges, Evidence(index, visited), answer, prev);
      Verifies(h, other, r) <==> (forall i :: 0 <= i < |visited| ==> visited[i] in other) && Evidence(other, visited) == Evidence(index, visited)
  {
    hide Seal, Evidence;
  }

  /** Read the cited sections again and compare hashes. */
  method VerifyReceipt(h: Hash, index: Index, r: Receipt) returns (ok: bool)
    ensures ok <==> Verifies(h, index, r)
  {
    var parts: seq<string> := [];
    for i := 0 to |r.visited|
      invariant forall k :: 0 <= k < i ==> r.visited[k] in index
      invariant parts == Parts(index, r.visited[..i])
    {
      if r.visited[i] !in index { return false; }
      parts := parts + [Part(index[r.visited[i]])];
    }
    assert r.visited[..|r.visited|] == r.visited;
    return h(Join("\n\n", parts)) == r.evidenceHash;
  }

  lemma {:induction false} JoinLength(sep: string, a: seq<string>, b: seq<string>)
    requires |a| == |b| && forall i :: 0 <= i < |a| ==> |a[i]| <= |b[i]|
    ensures |Join(sep, a)| <= |Join(sep, b)|
    ensures (exists i :: 0 <= i < |a| && |a[i]| < |b[i]|) ==> |Join(sep, a)| < |Join(sep, b)|
  {
    if |a| > 1 {
      JoinLength(sep, a[1..], b[1..]);
      if i :| 1 <= i < |a| && |a[i]| < |b[i]| { assert |a[1..][i - 1]| < |b[1..][i - 1]|; }
    }
  }

  lemma {:induction false} JoinSameLengths(sep: string, a: seq<string>, b: seq<string>)
    requires |a| == |b| && (forall i :: 0 <= i < |a| ==> |a[i]| == |b[i]|) && Join(sep, a) == Join(sep, b)
    ensures a == b
  {
    if |a| == 1 {
      assert a == [a[0]] && b == [b[0]];
    } else if |a| > 1 {
      var x, y := Join(sep, a), Join(sep, b);
      assert x[..|a[0]|] == a[0] && y[..|b[0]|] == b[0];
      assert x[|a[0]| + |sep|..] == Join(sep, a[1..]) && y[|b[0]| + |sep|..] == Join(sep, b[1..]);
      JoinSameLengths(sep, a[1..], b[1..]);
      assert a == [a[0]] + a[1..] && b == [b[0]] + b[1..];
    }
  }

  lemma {:induction false} EvidenceDiffers(index: Index, visited: seq<string>, id: string, text: string)
    requires forall i :: 0 <= i < |visited| ==> visited[i] in index
    requires id in visited && text != index[id].text
    ensures Evidence(index[id := index[id].(text := text)], visited) != Evidence(index, visited)
  {
    var changed := index[id := index[id].(text := text)];
    var a, b := Parts(index, visited), Parts(changed, visited);
    var k :| 0 <= k < |visited| && visited[k] == id;
    assert a[k] != b[k] by {
      var n := |index[id].breadcrumb| + 3;
      assert a[k][n..] == index[id].text && b[k][n..] == text;
    }
    if |text| == |index[id].text| {
      if Evidence(changed, visited) == Evidence(index, visited) { JoinSameLengths("\n\n", a, b); }
    } else if |text| < |index[id].text| {
      assert |b[k]| < |a[k]|;
      JoinLength("\n\n", b, a);
    } else {
      assert |a[k]| < |b[k]|;
      JoinLength("\n\n", a, b);
    }
  }

  /** A receipt made from the index verifies against it, and stops verifying as soon
      as the text of any one cited section is anything else. */
  lemma {:induction false} TamperEvident(h: Hash, index: Index, query: string, visited: seq<string>, ranges: seq<(nat, nat)>, answer: string, prev: string, id: string, text: string)
    requires Ideal(h) && forall i :: 0 <= i < |visited| ==> visited[i] in index
    ensures var r := MakeReceipt(h, query, visited, ranges, Evidence(index, visited), answer, prev);
      && Verifies(h, index, r)
      && (id in visited ==> (Verifies(h, index[id := index[id].(text := text)], r) <==> text == index[id].text))
  {
    hide Seal, Evidence;
    if id in visited {
      if text == index[id].text {
        assert index[id := index[id].(text := text)] == index;
      } else {
        EvidenceDiffers(index, visited, id, text);
      }
    }
  }
}
