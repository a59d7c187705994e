/**
  The tree index of a markdown document: headings found line by line, a forest
  built from their levels with a stack, and the table of contents read back off it.
 */
module Headings {
  import opened Text

  // ---- finding headings ---------------------------------------------------

  function Hashes(s: string): nat {
    if s != "" && s[0] == '#' then 1 + Hashes(s[1..]) else 0
  }

  lemma {:induction false} HashesBound(s: string)
    ensures Hashes(s) <= |s|
  {
    if s != "" && s[0] == '#' { HashesBound(s[1..]); }
  }

  predicate IsFence(s: string): (fence: bool)
    ensures fence <==> |s| >= 3 && s[0] == s[1] == s[2] == '`'
  {
    "```" <= s
  }

  /** One to six `#`, then white space. On a stripped line something always follows. */
  predicate IsHeading(s: string) {
    1 <= Hashes(s) <= 6 && Hashes(s) < |s| && IsSpace(s[Hashes(s)])
  }

  /** `line` counts from one. */
  datatype Heading = Heading(line: nat, level: nat, title: string)

  function HeadingOf(s: string, line: nat): Heading
    requires IsHeading(s)
  {
    Heading(line, Hashes(s), Strip(s[Hashes(s)..]))
  }

  /** Whether the lines so far leave a code block open. */
  predicate InCode(lines: seq<string>) {
    if lines == [] then false
    else InCode(lines[..|lines| - 1]) != IsFence(Strip(lines[|lines| - 1]))
  }

  function Found(lines: seq<string>): seq<Heading> {
    if lines == [] then []
    else
      var n := |lines| - 1;
      var s := Strip(lines[n]);
      Found(lines[..n]) + if !IsFence(s) && !InCode(lines[..n]) && IsHeading(s) then [HeadingOf(s, n + 1)] else []
  }

  method FindHeadings(lines: seq<string>) returns (headings: seq<Heading>)
    ensures headings == Found(lines)
  {
    headings := [];
    var inCode := false;
    for i := 0 to |lines|
      invariant headings == Found(lines[..i]) && inCode == InCode(lines[..i])
    {
      assert lines[..i + 1][..i] == lines[..i];
      var s := Strip(lines[i]);
      if IsFence(s) {
        inCode := !inCode;
      } else if !inCode && IsHeading(s) {
        headings := headings + [HeadingOf(s, i + 1)];
      }
    }
    assert lines[..|lines|] == lines;
  }

  /** How many code fences the lines hold. */
  function Fences(lines: seq<string>): nat {
    if lines == [] then 0
    else Fences(lines[..|lines| - 1]) + if IsFence(Strip(lines[|lines| - 1])) then 1 else 0
  }

  lemma {:induction false} InCodeIsOdd(lines: seq<string>)
    ensures InCode(lines) <==> Fences(lines) % 2 == 1
  {
    if lines != [] { InCodeIsOdd(lines[..|lines| - 1]); }
  }

  /** Line `i` is a heading: not a fence, an even number of fences before it, and marked. */
  predicate HeadingAt(lines: seq<string>, i: nat) {
    && i < |lines| && Fences(lines[..i]) % 2 == 0
    && !IsFence(Strip(lines[i])) && IsHeading(Strip(lines[i]))
  }

  /** `h` is the heading of its line. */
  predicate IsHeadingOf(lines: seq<string>, h: Heading) {
    h.line > 0 && HeadingAt(lines, h.line - 1) && h == HeadingOf(Strip(lines[h.line - 1]), h.line)
  }

  lemma {:induction false} HeadingOfFront(lines: seq<string>, h: Heading)
    requires lines != []
    ensures var n := |lines| - 1;
      IsHeadingOf(lines, h) <==>
      IsHeadingOf(lines[..n], h) || (HeadingAt(lines, n) && h == HeadingOf(Strip(lines[n]), n + 1))
  {
    hide Strip, IsFence, IsHeading, Fences;
    var front := lines[..|lines| - 1];
    if 0 < h.line <= |front| { assert front[..h.line - 1] == lines[..h.line - 1] && front[h.line - 1] == lines[h.line - 1]; }
  }

  /** Exactly the heading lines are found, each with the level and title it has, in order. */
  lemma {:induction false} FoundExactly(lines: seq<string>)
    ensures forall h :: h in Found(lines) <==> IsHeadingOf(lines, h)
    ensures InOrder(Found(lines), |lines|)
  {
    FoundInOrder(lines);
    hide InOrder;
    if lines != [] {
      hide Strip, IsFence, IsHeading, HeadingOf;
      var n := |lines| - 1;
      var front := lines[..n];
      FoundExactly(front);
      InCodeIsOdd(front);
      hide IsHeadingOf, Fences;
      forall h: Heading ensures h in Found(lines) <==> IsHeadingOf(lines, h) {
        HeadingOfFront(lines, h);
        assert h in Found(front) <==> IsHeadingOf(front, h);
      }
    }
  }

  // ---- what a heading line is ---------------------------------------------

  /** `n` marks, one white-space character, and `t`. */
  ghost predicate Marked(s: string, n: nat, t: string) {
    n < |s| && (forall i :: 0 <= i < n ==> s[i] == '#') && IsSpace(s[n]) && t == s[n + 1..]
  }

  lemma {:induction false} CountMarks(s: string, n: nat)
    ensures n == Hashes(s) <==> n <= |s| && (forall i :: 0 <= i < n ==> s[i] == '#') && (n < |s| ==> s[n] != '#')
  {
    HashesBound(s);
    if s != "" && s[0] == '#' {
      if n > 0 {
        CountMarks(s[1..], n - 1);
        assert n <= |s| ==> forall i :: 0 <= i < n - 1 ==> s[1..][i] == s[i + 1];
      }
    }
  }

  lemma {:induction false} MarkedIsHeading(s: string, n: nat, t: string, line: nat)
    requires 1 <= n <= 6 && Marked(s, n, t)
    ensures IsHeading(s) && HeadingOf(s, line) == Heading(line, n, Strip(t)) && !IsFence(s)
  {
    assert !IsSpace('#') && s[n] != '#';
    CountMarks(s, n);
    assert s[n..][1..] == t;
  }

  lemma {:induction false} HeadingIsMarked(s: string) returns (n: nat, t: string)
    requires IsHeading(s)
    ensures 1 <= n <= 6 && Marked(s, n, t)
  {
    n := Hashes(s);
    CountMarks(s, n);
    t := s[n + 1..];
  }

  /** Line `i`, stripped, is `n` marks, white space and `t`, outside any code block. */
  ghost predicate MarksHeading(lines: seq<string>, i: nat, n: nat, t: string) {
    i < |lines| && Fences(lines[..i]) % 2 == 0 && 1 <= n <= 6 && Marked(Strip(lines[i]), n, t)
  }

  /** A heading is found if and only if some line outside the code blocks is one to six
      marks, white space and a text: its level is the number of marks, its title the
      text stripped. */
  lemma {:induction false} FoundByMarks(lines: seq<string>, h: Heading)
    ensures h in Found(lines) <==> exists i: nat, n: nat, t: string :: MarksHeading(lines, i, n, t) && h == Heading(i + 1, n, Strip(t))
  {
    FoundExactly(lines);
    hide Found, Strip, Fences, Marked, InOrder;
    if h in Found(lines) {
      assert IsHeadingOf(lines, h);
      var s := Strip(lines[h.line - 1]);
      var n, t := HeadingIsMarked(s);
      MarkedIsHeading(s, n, t, h.line);
      assert MarksHeading(lines, h.line - 1, n, t);
    }
    if i: nat, n: nat, t: string :| MarksHeading(lines, i, n, t) && h == Heading(i + 1, n, Strip(t)) {
      MarkedIsHeading(Strip(lines[i]), n, t, i + 1);
      assert IsHeadingOf(lines, h);
    }
  }

  /** Headings have a level from one to six and come in strictly increasing line order. */
  ghost predicate InOrder(headings: seq<Heading>, size: nat) {
    && (forall i :: 0 <= i < |headings| ==> 1 <= headings[i].level <= 6 && 1 <= headings[i].line <= size)
    && (forall i, j :: 0 <= i < j < |headings| ==> headings[i].line < headings[j].line)
  }

  lemma {:induction false} FoundInOrder(lines: seq<string>)
    ensures InOrder(Found(lines), |lines|)
  {
    if lines != [] {
      hide Strip, IsFence, InCode;
      FoundInOrder(lines[..|lines| - 1]);
    }
  }

  // ---- the forest ---------------------------------------------------------

  /** Levels with the document itself, below every heading, at position -1. */
  function Level(levels: seq<nat>, i: int): nat
    requires -1 <= i < |levels|
  {
    if i < 0 then 0 else levels[i]
  }

  predicate Positive(levels: seq<nat>) {
    forall i :: 0 <= i < |levels| ==> levels[i] > 0
  }

  /** The nearest heading before `i` with a level below `level`, or -1. */
  function Nearest(levels: seq<nat>, i: int, level: nat): int
    requires 0 <= i <= |levels|
    ensures -1 <= Nearest(levels, i, level) < i
    decreases i
  {
    if i == 0 || Level(levels, i - 1) < level then i - 1 else Nearest(levels, i - 1, level)
  }

  function Parent(levels: seq<nat>, i: nat): int
    requires i < |levels|
  {
    Nearest(levels, i, levels[i])
  }

  lemma {:induction false} NearestSpec(levels: seq<nat>, i: int, level: nat)
    requires 0 <= i <= |levels| && level > 0
    ensures var p := Nearest(levels, i, level);
      Level(levels, p) < level && forall k :: p < k < i ==> Level(levels, k) >= level
    decreases i
  {
    if i > 0 && Level(levels, i - 1) >= level { NearestSpec(levels, i - 1, level); }
  }

  lemma {:induction false} NearestUnique(levels: seq<nat>, i: int, level: nat, p: int)
    requires 0 <= i <= |levels| && level > 0 && -1 <= p < i
    requires Level(levels, p) < level && forall k :: p < k < i ==> Level(levels, k) >= level
    ensures Nearest(levels, i, level) == p
  {
    NearestSpec(levels, i, level);
  }

  /** The headings in `lo..hi` whose parent is `p`, in document order. */
  function Kids(levels: seq<nat>, p: int, lo: nat, hi: nat): seq<nat>
    requires hi <= |levels|
    decreases hi
  {
    if hi <= lo then [] else Kids(levels, p, lo, hi - 1) + if Parent(levels, hi - 1) == p then [hi - 1] else []
  }

  /** The open headings after the first `i`: the last one, its parent, and so on up. */
  function Open(levels: seq<nat>, i: int): seq<nat>
    requires -1 <= i < |levels|
    decreases i + 1
  {
    if i < 0 then [] else Open(levels, Parent(levels, i)) + [i]
  }

  /** Parents and child lists, as the index keeps them; -1 stands for no parent. */
  datatype Forest = Forest(parents: seq<int>, children: seq<seq<nat>>, roots: seq<nat>)

  /** Every parent is the nearest earlier heading of smaller level, and the child
      lists and roots are its inverse in document order. */
  ghost predicate IsForest(levels: seq<nat>, n: nat, f: Forest) {
    && n <= |levels| && |f.parents| == n == |f.children|
    && (forall i :: 0 <= i < n ==> f.parents[i] == Parent(levels, i))
    && (forall i :: 0 <= i < n ==> f.children[i] == Kids(levels, i, 0, n))
    && f.roots == Kids(levels, -1, 0, n)
  }

  /** Popping an open heading whose level is not below `level` loses nothing. */
  lemma {:induction false} PopKeeps(levels: seq<nat>, i: nat, level: nat, top: nat)
    requires Positive(levels) && i <= |levels| && level > 0 && top < i
    requires Nearest(levels, i, level) <= top && levels[top] >= level
    ensures Nearest(levels, i, level) <= Parent(levels, top)
  {
    NearestSpec(levels, i, level);
    NearestSpec(levels, top, levels[top]);
  }

  lemma {:induction false} KidsNone(levels: seq<nat>, p: int, lo: nat, hi: nat)
    requires hi <= |levels| && forall k :: lo <= k < hi ==> Parent(levels, k) != p
    ensures Kids(levels, p, lo, hi) == []
    decreases hi
  {
    if lo < hi { KidsNone(levels, p, lo, hi - 1); }
  }

  /** The next heading hung under its parent. */
  function Hang(f: Forest, i: nat, p: int): Forest
    requires |f.children| == i && -1 <= p < i
  {
    var grown := f.children + [[]];
    if p >= 0 then Forest(f.parents + [p], grown[p := grown[p] + [i]], f.roots)
    else Forest(f.parents + [p], grown, f.roots + [i])
  }

  lemma {:induction false} HangKeeps(levels: seq<nat>, f: Forest, i: nat)
    requires i < |levels| && IsForest(levels, i, f)
    ensures IsForest(levels, i + 1, Hang(f, i, Parent(levels, i)))
  {
    KidsNone(levels, i, 0, i);
    hide Nearest;
  }

  method BuildForest(levels: seq<nat>) returns (f: Forest)
    requires Positive(levels)
    ensures IsForest(levels, |levels|, f)
  {
    hide IsForest, Nearest;
    ForestEmpty(levels);
    var parents: seq<int>, children: seq<seq<nat>>, roots: seq<nat> := [], [], [];
    var stack: seq<nat> := [];
    for i := 0 to |levels|
      invariant IsForest(levels, i, Forest(parents, children, roots)) && |children| == i
      invariant stack == Open(levels, i - 1)
    {
      ghost var was := Forest(parents, children, roots);
      ghost var top := i - 1;
      var level := levels[i];
      children := children + [[]];
      while stack != [] && levels[stack[|stack| - 1]] >= level
        invariant -1 <= top < i && stack == Open(levels, top) && Nearest(levels, i, level) <= top
        decreases |stack|
      {
        PopKeeps(levels, i, level, top);
        top := Parent(levels, top);
        stack := stack[..|stack| - 1];
      }
      TopIsNearest(levels, i, level, top);
      HangKeeps(levels, was, i);
      if stack != [] {
        var parent := stack[|stack| - 1];
        parents := parents + [parent];
        children := children[parent := children[parent] + [i]];
      } else {
        parents := parents + [-1];
        roots := roots + [i];
      }
      stack := stack + [i];
    }
    f := Forest(parents, children, roots);
  }

  lemma {:induction false} ForestEmpty(levels: seq<nat>)
    ensures IsForest(levels, 0, Forest([], [], []))
  {
  }

  lemma {:induction false} TopIsNearest(levels: seq<nat>, i: nat, level: nat, top: int)
    requires i < |levels| && level > 0 && -1 <= top < i && Nearest(levels, i, level) <= top && Level(levels, top) < level
    ensures Nearest(levels, i, level) == top
  {
    NearestSpec(levels, i, level);
  }

  // ---- breadcrumbs --------------------------------------------------------

  /** A heading and its ancestors, outermost first. */
  function Trail(f: Forest, i: int): (t: seq<nat>)
    requires -1 <= i < |f.parents| && forall k :: 0 <= k < |f.parents| ==> -1 <= f.parents[k] < k
    ensures forall k :: 0 <= k < |t| ==> t[k] < |f.parents|
    decreases i + 1
  {
    if i < 0 then [] else Trail(f, f.parents[i]) + [i]
  }

  /** The titles along a trail. */
  function Titles(titles: seq<string>, trail: seq<nat>): seq<string>
    requires forall k :: 0 <= k < |trail| ==> trail[k] < |titles|
  {
    seq(|trail|, k requires 0 <= k < |trail| => titles[trail[k]])
  }

  /** Following parents always ends, at a root; the titles are joined outermost first. */
  method Breadcrumb(f: Forest, titles: seq<string>, i: nat) returns (crumbs: string)
    requires i < |f.parents| == |titles| && forall k :: 0 <= k < |f.parents| ==> -1 <= f.parents[k] < k
    ensures crumbs == Join(" > ", Titles(titles, Trail(f, i)))
  {
    var parts: seq<string> := [];
    var cur: int := i;
    while cur >= 0
      invariant -1 <= cur < |f.parents| && Trail(f, cur) <= Trail(f, i)
      invariant |parts| == |Trail(f, i)| - |Trail(f, cur)|
      invariant forall k :: 0 <= k < |parts| ==> parts[k] == titles[Trail(f, i)[|Trail(f, cur)| + k]]
    {
      parts := [titles[cur]] + parts;
      cur := f.parents[cur];
    }
    assert parts == Titles(titles, Trail(f, i));
    crumbs := Join(" > ", parts);
  }

  /** The trail is the chain of nearest smaller levels, so levels rise along it. */
  lemma {:induction false} TrailIsOpen(levels: seq<nat>, f: Forest, i: int)
    requires Positive(levels) && IsForest(levels, |levels|, f) && -1 <= i < |levels|
    ensures Trail(f, i) == Open(levels, i)
    ensures forall k :: 0 <= k < |Open(levels, i)| ==> Open(levels, i)[k] <= i
    ensures forall j, k :: 0 <= j < k < |Open(levels, i)| ==> Open(levels, i)[j] < Open(levels, i)[k] && levels[Open(levels, i)[j]] < levels[Open(levels, i)[k]]
    decreases i + 1
  {
    if i >= 0 {
      var p := Parent(levels, i);
      NearestSpec(levels, i, levels[i]);
      TrailIsOpen(levels, f, p);
      var up := Open(levels, p);
      assert up != [] ==> up[|up| - 1] == p;
      assert forall k :: 0 <= k < |up| ==> levels[up[k]] <= Level(levels, p);
    }
  }

  // ---- the table of contents ----------------------------------------------

  datatype Toc = Toc(node: nat, kids: seq<Toc>)

  /** Children come after their parent. */
  ghost predicate Downward(f: Forest) {
    && |f.children| == |f.parents|
    && (forall i, k :: 0 <= i < |f.children| && 0 <= k < |f.children[i]| ==> i < f.children[i][k] < |f.children|)
    && (forall k :: 0 <= k < |f.roots| ==> f.roots[k] < |f.children|)
  }

  /** `build` inside `structure_map`. */
  ghost function Build(f: Forest, i: nat): Toc
    requires Downward(f) && i < |f.children|
    decreases |f.children| - i, 1, 0
  {
    Toc(i, BuildAll(f, i, f.children[i]))
  }

  ghost function BuildAll(f: Forest, above: int, kids: seq<nat>): seq<Toc>
    requires Downward(f) && above >= -1 && forall k :: 0 <= k < |kids| ==> above < kids[k] < |f.children|
    decreases |f.children| - above, 0, |kids|
  {
    if kids == [] then [] else [Build(f, kids[0])] + BuildAll(f, above, kids[1..])
  }

  ghost function StructureMap(f: Forest): seq<Toc>
    requires Downward(f)
  {
    BuildAll(f, -1, f.roots)
  }

  function Preorder(t: Toc): seq<nat> {
    [t.node] + PreorderAll(t.kids)
  }

  function PreorderAll(ts: seq<Toc>): seq<nat> {
    if ts == [] then [] else Preorder(ts[0]) + PreorderAll(ts[1..])
  }

  function Range(lo: nat, hi: nat): seq<nat>
    requires lo <= hi
  {
    seq(hi - lo, k requires 0 <= k < hi - lo => lo + k)
  }

  lemma {:induction false} RangeJoin(lo: nat, mid: nat, hi: nat)
    requires lo <= mid <= hi
    ensures Range(lo, hi) == Range(lo, mid) + Range(mid, hi)
  {
  }

  /** The first heading from `j` on that does not belong under `i`. */
  function Past(levels: seq<nat>, i: int, j: nat): (r: nat)
    requires -1 <= i < j <= |levels|
    ensures j <= r <= |levels|
    ensures forall k :: j <= k < r ==> levels[k] > Level(levels, i)
    ensures r < |levels| ==> levels[r] <= Level(levels, i)
    decreases |levels| - j
  {
    if j == |levels| || levels[j] <= Level(levels, i) then j else Past(levels, i, j + 1)
  }

  function Span(levels: seq<nat>, i: int): nat
    requires -1 <= i < |levels|
  {
    Past(levels, i, i + 1)
  }

  lemma {:induction false} KidsJoin(levels: seq<nat>, p: int, lo: nat, mid: nat, hi: nat)
    requires lo <= mid <= hi <= |levels|
    ensures Kids(levels, p, lo, hi) == Kids(levels, p, lo, mid) + Kids(levels, p, mid, hi)
    decreases hi
  {
    if mid < hi { KidsJoin(levels, p, lo, mid, hi - 1); }
  }

  lemma {:induction false} KidsIn(levels: seq<nat>, p: int, lo: nat, hi: nat)
    requires hi <= |levels|
    ensures forall k :: 0 <= k < |Kids(levels, p, lo, hi)| ==> lo <= Kids(levels, p, lo, hi)[k] < hi && p < Kids(levels, p, lo, hi)[k]
    decreases hi
  {
    if lo < hi { KidsIn(levels, p, lo, hi - 1); }
  }

  lemma {:induction false} ForestDown(levels: seq<nat>, f: Forest)
    requires IsForest(levels, |levels|, f)
    ensures Downward(f)
  {
    var n := |levels|;
    forall i, k | 0 <= i < n && 0 <= k < |f.children[i]| ensures i < f.children[i][k] < n {
      KidsIn(levels, i, 0, n);
    }
    KidsIn(levels, -1, 0, n);
  }

  /** Nothing from the end of `p`'s part on is a child of `p`. */
  lemma {:induction false} NoKidsPast(levels: seq<nat>, p: int, k: nat)
    requires Positive(levels) && -1 <= p < |levels| && Span(levels, p) <= k < |levels|
    ensures Parent(levels, k) != p
  {
    NearestSpec(levels, k, levels[k]);
    var e := Span(levels, p);
    assert Level(levels, e) <= Level(levels, p);
  }

  /** Inside a child's part there is no further child of the parent, and where it
      ends either the parent's part ends or the next child begins. */
  lemma {:induction false} NextKid(levels: seq<nat>, p: int, c: nat)
    requires Positive(levels) && -1 <= p < c < |levels| && Parent(levels, c) == p
    ensures c < Span(levels, c) <= Span(levels, p)
    ensures forall k :: c < k < Span(levels, c) ==> Parent(levels, k) != p
    ensures Span(levels, c) < Span(levels, p) ==> Parent(levels, Span(levels, c)) == p
  {
    NearestSpec(levels, c, levels[c]);
    var e := Span(levels, c);
    InsideSpan(levels, p, c);
    forall k | c < k < e ensures Parent(levels, k) != p {
      NearestSpec(levels, k, levels[k]);
      assert Level(levels, c) < levels[k];
    }
    if e < Span(levels, p) {
      assert forall k :: p < k < e ==> Level(levels, k) >= levels[e] by {
        forall k | p < k < e ensures Level(levels, k) >= levels[e] {
          if k < c { assert Level(levels, k) >= levels[c]; }
        }
      }
      NearestUnique(levels, e, levels[e], p);
    }
  }

  lemma {:induction false} InsideSpan(levels: seq<nat>, p: int, c: nat)
    requires Positive(levels) && -1 <= p < c < |levels| && Parent(levels, c) == p
    ensures c < Span(levels, p) && Span(levels, c) <= Span(levels, p)
  {
    NearestSpec(levels, c, levels[c]);
    var e := Span(levels, p);
    assert e < |levels| ==> Level(levels, e) <= Level(levels, p);
  }

  lemma {:induction false} KidsBelow(levels: seq<nat>, i: nat)
    requires Positive(levels) && i < |levels|
    ensures Kids(levels, i, 0, |levels|) == Kids(levels, i, i + 1, |levels|)
    ensures i + 1 < Span(levels, i) ==> Parent(levels, i + 1) == i
  {
    KidsJoin(levels, i, 0, i + 1, |levels|);
    KidsNone(levels, i, 0, i + 1);
    if i + 1 < Span(levels, i) { NearestUnique(levels, i + 1, levels[i + 1], i); }
  }

  lemma {:induction false} TreeOrder(levels: seq<nat>, f: Forest, i: nat)
    requires Positive(levels) && IsForest(levels, |levels|, f) && Downward(f) && i < |levels|
    ensures Preorder(Build(f, i)) == Range(i, Span(levels, i))
    decreases |levels| - i, 0
  {
    hide Kids, Nearest, Parent, Past, Downward, PreorderAll, BuildAll;
    KidsBelow(levels, i);
    KidsIn(levels, i, i + 1, |levels|);
    KidsOrder(levels, f, i, i + 1);
    assert Range(i, Span(levels, i)) == [i] + Range(i + 1, Span(levels, i));
  }

  lemma {:induction false} KidsEnd(levels: seq<nat>, p: int)
    requires Positive(levels) && -1 <= p < |levels|
    ensures Kids(levels, p, Span(levels, p), |levels|) == []
  {
    forall k | Span(levels, p) <= k < |levels| ensures Parent(levels, k) != p { NoKidsPast(levels, p, k); }
    KidsNone(levels, p, Span(levels, p), |levels|);
  }

  lemma {:induction false} KidsFirst(levels: seq<nat>, p: int, j: nat)
    requires Positive(levels) && -1 <= p < j < |levels| && Parent(levels, j) == p
    ensures Kids(levels, p, j, |levels|) == [j] + Kids(levels, p, Span(levels, j), |levels|)
  {
    NextKid(levels, p, j);
    KidsJoin(levels, p, j, j + 1, |levels|);
    KidsJoin(levels, p, j + 1, Span(levels, j), |levels|);
    KidsNone(levels, p, j + 1, Span(levels, j));
    assert Kids(levels, p, j, j) == [] && Kids(levels, p, j, j + 1) == [] + [j];
  }

  lemma {:induction false} BuildFirst(f: Forest, p: int, j: nat, rest: seq<nat>)
    requires Downward(f) && -1 <= p < j < |f.children| && forall k :: 0 <= k < |rest| ==> p < rest[k] < |f.children|
    ensures forall k :: 0 <= k < |[j] + rest| ==> p < ([j] + rest)[k] < |f.children|
    ensures PreorderAll(BuildAll(f, p, [j] + rest)) == Preorder(Build(f, j)) + PreorderAll(BuildAll(f, p, rest))
  {
    assert ([j] + rest)[1..] == rest;
    var built := BuildAll(f, p, [j] + rest);
    assert built[1..] == BuildAll(f, p, rest);
  }

  lemma {:induction false} KidsOrder(levels: seq<nat>, f: Forest, p: int, j: nat)
    requires Positive(levels) && IsForest(levels, |levels|, f) && Downward(f)
    requires -1 <= p < |levels| && p < j <= Span(levels, p) && (j < Span(levels, p) ==> Parent(levels, j) == p)
    requires forall k :: 0 <= k < |Kids(levels, p, j, |levels|)| ==> p < Kids(levels, p, j, |levels|)[k] < |levels|
    ensures PreorderAll(BuildAll(f, p, Kids(levels, p, j, |levels|))) == Range(j, Span(levels, p))
    decreases |levels| - j, 1
  {
    var e := Span(levels, p);
    if j == e {
      KidsEnd(levels, p);
    } else {
      hide Kids, Nearest, Parent, Past, Downward, Preorder, PreorderAll, Build, BuildAll, IsForest, Positive, Span, Range;
      var next := Span(levels, j);
      NextKid(levels, p, j);
      KidsFirst(levels, p, j);
      KidsIn(levels, p, next, |levels|);
      BuildFirst(f, p, j, Kids(levels, p, next, |levels|));
      TreeOrder(levels, f, j);
      KidsOrder(levels, f, p, next);
      RangeJoin(j, next, e);
    }
  }

  /** Read depth first, the table of contents lists the headings in document order. */
  lemma {:induction false} StructureMapIsDocumentOrder(levels: seq<nat>, f: Forest)
    requires Positive(levels) && IsForest(levels, |levels|, f)
    ensures Downward(f) && PreorderAll(StructureMap(f)) == Range(0, |levels|)
  {
    ForestDown(levels, f);
    assert Span(levels, -1) == |levels|;
    if levels != [] { NearestUnique(levels, 0, levels[0], -1); }
    KidsIn(levels, -1, 0, |levels|);
    KidsOrder(levels, f, -1, 0);
  }

  // ---- the index ----------------------------------------------------------

  /** The section with index `i` in document order has this id. */
  function NodeId(i: nat): string {
    Padded(i + 1, 4)
  }

  /** Ids never clash, so no section takes another's place in the index. */
  lemma {:induction false} NodeIdsDistinct(i: nat, j: nat)
    requires NodeId(i) == NodeId(j)
    ensures i == j
  {
    PaddedInjective(i + 1, j + 1, 4);
  }

  // ---- summaries ----------------------------------------------------------

  const SUMMARY_LIMIT: nat := 160

  /** The lines that are not blank. */
  function NonBlank(lines: seq<string>): seq<string> {
    if lines == [] then [] else (if Strip(lines[0]) == "" then [] else [lines[0]]) + NonBlank(lines[1..])
  }

  /** A sentence ends at `q`: a mark that is not the first character, before white space
      or the end. */
  predicate EndsAt(body: string, q: nat) {
    && 0 < q < |body| && (body[q] == '.' || body[q] == '!' || body[q] == '?')
    && (q + 1 == |body| || IsSpace(body[q + 1]))
  }

  /** Where the first sentence ends, or the end of the text. */
  function FirstEnd(body: string, from: nat): (q: nat)
    requires from <= |body|
    ensures from <= q <= |body| && (q < |body| ==> EndsAt(body, q)) && forall k :: from <= k < q ==> !EndsAt(body, k)
    decreases |body| - from
  {
    if from == |body| || EndsAt(body, from) then from else FirstEnd(body, from + 1)
  }

  /** The lines of a text that are not blank, put together with spaces. */
  function Body(text: string): string {
    Join(" ", NonBlank(SplitOn('\n', text)))
  }

  /** `_first_sentence`. */
  function FirstSentence(text: string): string {
    var body := Body(text);
    var q := FirstEnd(body, 0);
    var s := if q < |body| then body[..q + 1] else body;
    Strip(if |s| > SUMMARY_LIMIT then s[..SUMMARY_LIMIT] else s)
  }

  function Summary(text: string, title: string): string {
    if FirstSentence(text) != "" then FirstSentence(text) else title
  }

  /** Every heading found has a title, so every section has a summary. */
  lemma {:induction false} NothingUntitled(line: string, text: string)
    requires IsHeading(Strip(line))
    ensures HeadingOf(Strip(line), 1).title != "" && Summary(text, HeadingOf(Strip(line), 1).title) != ""
    ensures |FirstSentence(text)| <= SUMMARY_LIMIT
  {
    TitleVisible(line);
    FirstSentenceFits(text);
  }

  /** The lines kept are those with something to see, in order. */
  lemma {:induction false} NonBlankIs(a: seq<string>, b: seq<string>, line: string)
    ensures NonBlank([]) == [] && NonBlank([line]) == if Erase(line) == "" then [] else [line]
    ensures NonBlank(a + b) == NonBlank(a) + NonBlank(b)
  {
    hide Strip, Erase;
    StripVisible(line);
    if a == [] {
      assert a + b == b;
    } else {
      assert (a + b)[1..] == a[1..] + b;
      NonBlankIs(a[1..], b, line);
    }
  }

  /** The first sentence of `body` is its first `n` characters, or there is none that ends
      and `n` is all of it. */
  ghost predicate SentenceLength(body: string, n: nat) {
    && n <= |body| && (n < |body| ==> n > 0 && EndsAt(body, n - 1))
    && forall k: nat :: k + 1 < n ==> !EndsAt(body, k)
  }

  lemma {:induction false} SentenceEnds(body: string) returns (n: nat)
    ensures SentenceLength(body, n) && forall m: nat :: SentenceLength(body, m) ==> m == n
    ensures n == var q := FirstEnd(body, 0); if q < |body| then q + 1 else q
  {
    var q := FirstEnd(body, 0);
    n := if q < |body| then q + 1 else |body|;
    hide EndsAt, FirstEnd;
    forall m: nat | SentenceLength(body, m) ensures m == n { }
  }

  /** The summary sentence: at most 160 characters of the first sentence of the lines put
      together, stripped. */
  lemma {:induction false} FirstSentenceIs(text: string) returns (n: nat)
    ensures SentenceLength(Body(text), n) && StripsTo(Body(text)[..if n < 160 then n else 160], FirstSentence(text))
  {
    var body := Body(text);
    n := SentenceEnds(body);
    var cut := body[..if n < 160 then n else 160];
    CutIs(text, n);
    hide *;
    StripIff(cut, FirstSentence(text));
  }

  lemma {:induction false} CutIs(text: string, n: nat)
    requires n == var q := FirstEnd(Body(text), 0); if q < |Body(text)| then q + 1 else q
    ensures FirstSentence(text) == Strip(Body(text)[..if n < 160 then n else 160])
  {
    var body := Body(text);
    hide Strip, EndsAt, FirstEnd, NonBlank, SplitOn, Join;
    assert body[..|body|] == body;
    if n > 160 { assert body[..n][..160] == body[..160]; }
  }

  lemma {:induction false} FirstSentenceFits(text: string)
    ensures |FirstSentence(text)| <= SUMMARY_LIMIT
  {
    hide Strip, Erase, Body, FirstEnd;
    var body := Body(text);
    var q := FirstEnd(body, 0);
    var s := if q < |body| then body[..q + 1] else body;
    EraseStrip(if |s| > SUMMARY_LIMIT then s[..SUMMARY_LIMIT] else s);
  }

  lemma {:induction false} TitleVisible(line: string)
    requires IsHeading(Strip(line))
    ensures Strip(Strip(line)[Hashes(Strip(line))..]) != ""
  {
    var s := Strip(line);
    var k := Hashes(s);
    StrippedEnd(StripLeft(line));
    assert !IsSpace(s[|s| - 1]) && k < |s| - 1;
    var rest := s[k..];
    StripVisible(rest);
    assert rest[|rest| - 1] == s[|s| - 1] && Erase(rest) != "";
  }

  lemma {:induction false} StrippedEnd(s: string)
    ensures StripRight(s) != "" ==> !IsSpace(StripRight(s)[|StripRight(s)| - 1])
  {
    if s != "" && IsSpace(s[|s| - 1]) { StrippedEnd(s[..|s| - 1]); }
  }

  // ---- sections -----------------------------------------------------------

  datatype Section = Section(id: string, title: string, level: nat, startLine: nat, endLine: nat, ownText: string, summary: string)

  function Levels(headings: seq<Heading>): seq<nat> {
    seq(|headings|, i requires 0 <= i < |headings| => headings[i].level)
  }

  /** A section runs from its heading to the line before the next heading of any level. */
  function SectionAt(lines: seq<string>, headings: seq<Heading>, i: nat): Section
    requires InOrder(headings, |lines|) && i < |headings|
  {
    var h := headings[i];
    var end := if i + 1 < |headings| then headings[i + 1].line - 1 else |lines|;
    var text := Strip(Join("\n", lines[h.line..end]));
    Section(NodeId(i), h.title, h.level, h.line, end, text, Summary(text, h.title))
  }

  /** A section has the id, title, level and line of its heading, the lines up to the next
      heading as its text, and a summary from its text or else its title. */
  lemma {:induction false} SectionIs(lines: seq<string>, headings: seq<Heading>, i: nat)
    requires InOrder(headings, |lines|) && i < |headings|
    ensures var s := SectionAt(lines, headings, i);
      && Value(s.id) == i + 1 && |s.id| >= 4 && (|s.id| > 4 ==> IsDecimal(s.id, i + 1))
      && s.title == headings[i].title && s.level == headings[i].level && s.startLine == headings[i].line
      && s.startLine <= s.endLine <= |lines|
      && s.endLine + 1 == (if i + 1 < |headings| then headings[i + 1].line else |lines| + 1)
      && StripsTo(Join("\n", lines[s.startLine..s.endLine]), s.ownText)
      && s.summary == (if FirstSentence(s.ownText) == "" then s.title else FirstSentence(s.ownText))
  {
    var s := SectionAt(lines, headings, i);
    hide Strip, Join, FirstSentence, Padded, Value, IsDecimal;
    PaddedIs(i + 1, 4);
    StripIff(Join("\n", lines[s.startLine..s.endLine]), s.ownText);
  }

  /** One section per heading. */
  method SectionsOf(lines: seq<string>, headings: seq<Heading>) returns (sections: seq<Section>)
    requires InOrder(headings, |lines|)
    ensures |sections| == |headings| && forall i :: 0 <= i < |sections| ==> sections[i] == SectionAt(lines, headings, i)
  {
    hide Strip, Join, Summary, NodeId;
    sections := [];
    for i := 0 to |headings|
      invariant |sections| == i && forall k :: 0 <= k < i ==> sections[k] == SectionAt(lines, headings, k)
    {
      LinesInBounds(lines, headings, i);
      var next := if i + 1 < |headings| then headings[i + 1].line else |lines| + 1;
      var text := Strip(Join("\n", lines[headings[i].line..next - 1]));
      var section := Section(NodeId(i), headings[i].title, headings[i].level, headings[i].line, next - 1, text, Summary(text, headings[i].title));
      assert section == SectionAt(lines, headings, i);
      hide InOrder, SectionAt;
      sections := sections + [section];
    }
  }

  lemma {:induction false} LinesInBounds(lines: seq<string>, headings: seq<Heading>, i: nat)
    requires InOrder(headings, |lines|) && i < |headings|
    ensures 1 <= headings[i].line <= |lines| && (i + 1 < |headings| ==> headings[i].line < headings[i + 1].line <= |lines|)
  {
  }

  method FromMarkdown(lines: seq<string>) returns (sections: seq<Section>, f: Forest)
    ensures InOrder(Found(lines), |lines|) && |sections| == |Found(lines)|
    ensures forall i :: 0 <= i < |sections| ==> sections[i] == SectionAt(lines, Found(lines), i)
    ensures IsForest(Levels(Found(lines)), |sections|, f)
  {
    var headings := FindHeadings(lines);
    FoundInOrder(lines);
    LevelsPositive(lines, headings);
    hide InOrder, SectionAt, IsForest, Found, Positive;
    sections := SectionsOf(lines, headings);
    f := BuildForest(Levels(headings));
  }

  lemma {:induction false} LevelsPositive(lines: seq<string>, headings: seq<Heading>)
    requires InOrder(headings, |lines|)
    ensures Positive(Levels(headings))
  {
  }

  /** The lines of the sections from `i` on, heading lines included, end to end. */
  function Covered(lines: seq<string>, headings: seq<Heading>, i: nat): seq<string>
    requires InOrder(headings, |lines|) && i <= |headings|
    decreases |headings| - i
  {
    if i == |headings| then []
    else
      var s := SectionAt(lines, headings, i);
      lines[s.startLine - 1..s.endLine] + Covered(lines, headings, i + 1)
  }

  /** The sections tile the document from the first heading to the last line. */
  lemma {:induction false} SectionsTile(lines: seq<string>, headings: seq<Heading>, i: nat)
    requires InOrder(headings, |lines|) && i < |headings|
    ensures Covered(lines, headings, i) == lines[headings[i].line - 1..]
    decreases |headings| - i
  {
    hide Strip, Join, Summary, NodeId;
    if i + 1 < |headings| {
      SectionsTile(lines, headings, i + 1);
      var a, b := headings[i].line - 1, headings[i + 1].line - 1;
      assert lines[a..] == lines[a..b] + lines[b..];
    } else {
      assert Covered(lines, headings, i + 1) == [];
    }
  }
}
