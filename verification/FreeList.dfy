/** The list of free pages: trunk pages, each with the numbers of some leaf pages
    (btree.c:3974-4210, 4217-4296). */
module FreeList {
  type Pgno = nat

  /** The bytes of a page as far as a trunk uses them: the number of the next
      trunk, how many leaves there are, and the places for their numbers, which
      may hold old numbers past the last leaf. */
  datatype Page = Page(next: Pgno, k: nat, slots: seq<Pgno>)

  /** A trunk and its leaves. */
  datatype Trunk = Trunk(pgno: Pgno, leaves: seq<Pgno>)

  type Store = map<Pgno, Page>

  // ---------------------------------------------------------------------
  // What is on the list
  // ---------------------------------------------------------------------

  /** All pages of some trunks, leaves and trunks alike. */
  function Pages(chain: seq<Trunk>): multiset<Pgno> {
    if chain == [] then multiset{} else multiset{chain[0].pgno} + multiset(chain[0].leaves) + Pages(chain[1..])
  }

  lemma {:induction false} PagesConcat(a: seq<Trunk>, b: seq<Trunk>)
    ensures Pages(a + b) == Pages(a) + Pages(b)
  {
    if a == [] {
      assert a + b == b;
    } else {
      assert (a + b)[1..] == a[1..] + b;
      PagesConcat(a[1..], b);
    }
  }

  lemma PagesOne(t: Trunk)
    ensures Pages([t]) == multiset{t.pgno} + multiset(t.leaves)
  {
    assert [t][1..] == [];
  }

  lemma SplitSeq(chain: seq<Trunk>, i: nat)
    requires i < |chain|
    ensures chain == chain[..i] + ([chain[i]] + chain[i + 1..])
  {
  }

  /** The pages of the list before, at and after trunk i. */
  lemma PagesAt(chain: seq<Trunk>, i: nat)
    requires i < |chain|
    ensures Pages(chain) == Pages(chain[..i]) + (multiset{chain[i].pgno} + multiset(chain[i].leaves)) + Pages(chain[i + 1..])
  {
    SplitSeq(chain, i);
    PagesConcat(chain[..i], [chain[i]] + chain[i + 1..]);
    PagesConcat([chain[i]], chain[i + 1..]);
    PagesOne(chain[i]);
  }

  /** The trunk is stored at its page; next is the trunk after it. */
  predicate TrunkAt(pages: Store, t: Trunk, next: Pgno) {
    && t.pgno in pages && t.pgno != 0
    && var p := pages[t.pgno]; p.next == next && p.k == |t.leaves| <= |p.slots| && p.slots[..p.k] == t.leaves
  }

  /** From page a the trunks of seg follow one another, and then comes z. */
  predicate Linked(pages: Store, a: Pgno, seg: seq<Trunk>, z: Pgno)
    decreases |seg|
  {
    if seg == [] then a == z
    else seg[0].pgno == a && a in pages && TrunkAt(pages, seg[0], pages[a].next) && Linked(pages, pages[a].next, seg[1..], z)
  }

  predicate NoRepeats(s: multiset<Pgno>) {
    forall p | p in s :: s[p] == 1
  }

  lemma {:induction false} LinkedConcat(pages: Store, a: Pgno, s: seq<Trunk>, m: Pgno, t: seq<Trunk>, z: Pgno)
    requires Linked(pages, a, s, m) && Linked(pages, m, t, z)
    ensures Linked(pages, a, s + t, z)
    decreases |s|
  {
    if s == [] {
      assert s + t == t;
    } else {
      assert (s + t)[1..] == s[1..] + t;
      LinkedConcat(pages, pages[a].next, s[1..], m, t, z);
    }
  }

  /** The list cut before trunk i. */
  lemma {:induction false} LinkedSplit(pages: Store, a: Pgno, seg: seq<Trunk>, i: nat, z: Pgno) returns (m: Pgno)
    requires Linked(pages, a, seg, z) && i <= |seg|
    ensures Linked(pages, a, seg[..i], m) && Linked(pages, m, seg[i..], z)
    ensures i < |seg| ==> m == seg[i].pgno
    decreases i
  {
    if i == 0 {
      m := a;
      assert seg[0..] == seg && seg[..0] == [];
    } else {
      m := LinkedSplit(pages, pages[a].next, seg[1..], i - 1, z);
      assert seg[..i][1..] == seg[1..][..i - 1] && seg[i..] == seg[1..][i - 1..];
    }
  }

  /** Pages that are no trunks of the segment do not matter. */
  lemma {:induction false} LinkedFrame(pages: Store, next: Store, a: Pgno, seg: seq<Trunk>, z: Pgno)
    requires Linked(pages, a, seg, z)
    requires forall p | p in Pages(seg) && p in pages :: p in next && next[p] == pages[p]
    ensures Linked(next, a, seg, z)
    decreases |seg|
  {
    if seg != [] {
      assert seg[0].pgno in Pages(seg);
      LinkedFrame(pages, next, pages[a].next, seg[1..], z);
    }
  }

  /** The last trunk of a segment made to point somewhere else. */
  lemma {:induction false} LinkedRelink(pages: Store, a: Pgno, seg: seq<Trunk>, z: Pgno, w: Pgno)
    requires Linked(pages, a, seg, z) && seg != [] && NoRepeats(Pages(seg))
    ensures var p := seg[|seg| - 1].pgno; p in pages && Linked(pages[p := pages[p].(next := w)], a, seg, w)
    decreases |seg|
  {
    var n := |seg| - 1;
    var p := seg[n].pgno;
    if n == 0 {
      assert Linked(pages[p := pages[p].(next := w)], w, [], w);
    } else {
      PagesTail(seg);
      LinkedRelink(pages, pages[a].next, seg[1..], z, w);
      TrunkInPages(seg[1..], n - 1);
      assert p != a;
    }
  }

  lemma PagesTail(seg: seq<Trunk>)
    requires seg != [] && NoRepeats(Pages(seg))
    ensures NoRepeats(Pages(seg[1..])) && seg[0].pgno !in Pages(seg[1..])
  {
    forall p | p in Pages(seg[1..]) ensures Pages(seg[1..])[p] == 1 && p != seg[0].pgno { assert Pages(seg)[p] == 1; }
  }

  lemma TrunkInPages(chain: seq<Trunk>, i: nat)
    requires i < |chain|
    ensures chain[i].pgno in Pages(chain) && forall l | l in chain[i].leaves :: l in Pages(chain)
  {
    PagesAt(chain, i);
  }

  /** The header in page 1 and the pages it leads to. */
  datatype Free = Free(first: Pgno, count: nat, pages: Store)

  /** Leaf numbers that a trunk may hold, and the room for them on a page. */
  function Capacity(usableSize: nat): nat
    requires usableSize >= 480
  {
    usableSize / 4 - 8
  }

  predicate LeavesFit(chain: seq<Trunk>, capacity: nat) {
    forall i | 0 <= i < |chain| :: |chain[i].leaves| <= capacity
  }

  /** Every page of the list is there, with room for leaf numbers. */
  ghost predicate Stored(pages: Store, all: multiset<Pgno>, usableSize: nat) {
    forall p | p in all :: p in pages && p > 1 && |pages[p].slots| == usableSize / 4 - 2
  }

  /** The free list is sound: the header counts the pages, each is on the list
      once, and no trunk has too many leaves. */
  ghost predicate Valid(f: Free, chain: seq<Trunk>, usableSize: nat) {
    && usableSize >= 480
    && Linked(f.pages, f.first, chain, 0) && NoRepeats(Pages(chain)) && f.count == |Pages(chain)|
    && Stored(f.pages, Pages(chain), usableSize) && LeavesFit(chain, Capacity(usableSize))
  }

  // ---------------------------------------------------------------------
  // freePage
  // ---------------------------------------------------------------------

  /** The list after page p is freed. */
  function Freed(chain: seq<Trunk>, p: Pgno, capacity: nat): seq<Trunk> {
    if chain == [] || |chain[0].leaves| >= capacity then [Trunk(p, [])] + chain
    else [Trunk(chain[0].pgno, chain[0].leaves + [p])] + chain[1..]
  }

  lemma FreedPages(chain: seq<Trunk>, p: Pgno, capacity: nat)
    ensures Pages(Freed(chain, p, capacity)) == Pages(chain) + multiset{p}
  {
    var r := Freed(chain, p, capacity);
    if chain == [] || |chain[0].leaves| >= capacity { assert r[1..] == chain; } else { assert r[1..] == chain[1..]; }
  }

  /** The bytes after page p is freed. */
  function FreePageBytes(f: Free, p: Pgno, capacity: nat): Free
    requires p in f.pages && (f.count > 0 ==> f.first in f.pages && (f.pages[f.first].k < capacity ==> f.pages[f.first].k < |f.pages[f.first].slots|))
  {
    if f.count == 0 then Free(p, 1, f.pages[p := f.pages[p].(next := 0, k := 0)])
    else
      var t := f.pages[f.first];
      if t.k >= capacity then Free(p, f.count + 1, f.pages[p := f.pages[p].(next := f.first, k := 0)])
      else Free(f.first, f.count + 1, f.pages[f.first := t.(k := t.k + 1, slots := t.slots[t.k := p])])
  }

  lemma FirstTrunk(f: Free, chain: seq<Trunk>, usableSize: nat)
    requires Valid(f, chain, usableSize)
    ensures f.count > 0 <==> chain != []
    ensures chain != [] ==> f.first == chain[0].pgno && f.first in f.pages && f.pages[f.first].k == |chain[0].leaves|
    ensures chain != [] ==> Linked(f.pages, f.pages[f.first].next, chain[1..], 0) && f.first in Pages(chain)
    ensures chain != [] ==> |chain[0].leaves| <= Capacity(usableSize) < usableSize / 4 - 2 == |f.pages[f.first].slots|
    ensures chain == [] ==> f.first == 0
  {
    if chain != [] { TrunkInPages(chain, 0); }
  }

  lemma FreeNewTrunk(f: Free, chain: seq<Trunk>, usableSize: nat, p: Pgno)
    requires Valid(f, chain, usableSize) && p > 1 && p in f.pages && p !in Pages(chain) && |f.pages[p].slots| == usableSize / 4 - 2
    requires f.count == 0 || (f.first in f.pages && f.pages[f.first].k >= Capacity(usableSize))
    requires f.count > 0 ==> chain != [] && |chain[0].leaves| >= Capacity(usableSize)
    requires f.count == 0 ==> chain == [] && f.first == 0
    ensures Linked(f.pages[p := f.pages[p].(next := f.first, k := 0)], p, [Trunk(p, [])] + chain, 0)
  {
    var pages := f.pages[p := f.pages[p].(next := f.first, k := 0)];
    LinkedFrame(f.pages, pages, f.first, chain, 0);
    assert ([Trunk(p, [])] + chain)[1..] == chain;
  }

  lemma FreeLeaf(f: Free, chain: seq<Trunk>, usableSize: nat, p: Pgno)
    requires Valid(f, chain, usableSize) && p !in Pages(chain) && f.count > 0 && f.first in f.pages
    requires f.pages[f.first].k < Capacity(usableSize) && f.pages[f.first].k < |f.pages[f.first].slots|
    requires chain != [] && f.first == chain[0].pgno && Linked(f.pages, f.pages[f.first].next, chain[1..], 0)
    ensures var t := f.pages[f.first];
      Linked(f.pages[f.first := t.(k := t.k + 1, slots := t.slots[t.k := p])], f.first, [Trunk(chain[0].pgno, chain[0].leaves + [p])] + chain[1..], 0)
  {
    var t := f.pages[f.first];
    var q := t.(k := t.k + 1, slots := t.slots[t.k := p]);
    PagesTail(chain);
    LinkedFrame(f.pages, f.pages[f.first := q], t.next, chain[1..], 0);
    assert q.slots[..q.k] == chain[0].leaves + [p];
    var r := [Trunk(chain[0].pgno, chain[0].leaves + [p])] + chain[1..];
    assert r[1..] == chain[1..] && r[0] == Trunk(chain[0].pgno, chain[0].leaves + [p]);
  }

  /** Freeing a page puts exactly that page on the list, and keeps it sound. */
  lemma FreePageValid(f: Free, chain: seq<Trunk>, usableSize: nat, p: Pgno)
    requires Valid(f, chain, usableSize) && p > 1 && p in f.pages && p !in Pages(chain) && |f.pages[p].slots| == usableSize / 4 - 2
    ensures f.count > 0 ==> f.first in f.pages && f.pages[f.first].k < |f.pages[f.first].slots|
    ensures Valid(FreePageBytes(f, p, Capacity(usableSize)), Freed(chain, p, Capacity(usableSize)), usableSize)
  {
    var capacity := Capacity(usableSize);
    FirstTrunk(f, chain, usableSize);
    FreedPages(chain, p, capacity);
    FreedLinked(f, chain, usableSize, p);
    FreedFits(chain, p, capacity);
    FreedStored(f, p, capacity, Pages(chain), usableSize);
  }

  lemma FreedLinked(f: Free, chain: seq<Trunk>, usableSize: nat, p: Pgno)
    requires Valid(f, chain, usableSize) && p > 1 && p in f.pages && p !in Pages(chain) && |f.pages[p].slots| == usableSize / 4 - 2
    ensures f.count > 0 ==> f.first in f.pages && f.pages[f.first].k < |f.pages[f.first].slots|
    ensures var g := FreePageBytes(f, p, Capacity(usableSize)); Linked(g.pages, g.first, Freed(chain, p, Capacity(usableSize)), 0)
  {
    FirstTrunk(f, chain, usableSize);
    if f.count == 0 || f.pages[f.first].k >= Capacity(usableSize) {
      FreeNewTrunk(f, chain, usableSize, p);
    } else {
      FreeLeaf(f, chain, usableSize, p);
    }
  }

  lemma FreedFits(chain: seq<Trunk>, p: Pgno, capacity: nat)
    requires LeavesFit(chain, capacity)
    ensures LeavesFit(Freed(chain, p, capacity), capacity)
  {
  }

  lemma FreedStored(f: Free, p: Pgno, capacity: nat, all: multiset<Pgno>, usableSize: nat)
    requires Stored(f.pages, all, usableSize) && p in f.pages && p > 1 && |f.pages[p].slots| == usableSize / 4 - 2
    requires f.count > 0 ==> f.first in f.pages && f.pages[f.first].k < |f.pages[f.first].slots|
    ensures Stored(FreePageBytes(f, p, capacity).pages, all + multiset{p}, usableSize)
  {
  }

  // ---------------------------------------------------------------------
  // allocateBtreePage
  // ---------------------------------------------------------------------

  /** A leaf list without its c-th entry: the last one takes its place. */
  function Without(leaves: seq<Pgno>, c: nat): seq<Pgno>
    requires c < |leaves|
  {
    var n := |leaves| - 1;
    if c < n then leaves[..n][c := leaves[n]] else leaves[..n]
  }

  lemma WithoutIs(leaves: seq<Pgno>, c: nat)
    requires c < |leaves|
    ensures multiset(Without(leaves, c)) + multiset{leaves[c]} == multiset(leaves)
  {
    var n := |leaves| - 1;
    assert leaves == leaves[..n] + [leaves[n]];
  }

  /** The list without leaf c of trunk i. */
  function LeafTaken(chain: seq<Trunk>, i: nat, c: nat): seq<Trunk>
    requires i < |chain| && c < |chain[i].leaves|
  {
    chain[..i] + [Trunk(chain[i].pgno, Without(chain[i].leaves, c))] + chain[i + 1..]
  }

  /** What becomes of a trunk that is taken: its first leaf is promoted. */
  function Promoted(t: Trunk): seq<Trunk> {
    if t.leaves == [] then [] else [Trunk(t.leaves[0], t.leaves[1..])]
  }

  /** The list without trunk i itself; its first leaf becomes a trunk. */
  function TrunkTaken(chain: seq<Trunk>, i: nat): seq<Trunk>
    requires i < |chain|
  {
    chain[..i] + Promoted(chain[i]) + chain[i + 1..]
  }

  lemma PagesReplaced(chain: seq<Trunk>, i: nat, mid: seq<Trunk>)
    requires i < |chain|
    ensures Pages(chain[..i] + mid + chain[i + 1..]) == Pages(chain[..i]) + Pages(mid) + Pages(chain[i + 1..])
  {
    PagesConcat(chain[..i] + mid, chain[i + 1..]);
    PagesConcat(chain[..i], mid);
  }

  lemma PromotedPages(t: Trunk)
    ensures Pages(Promoted(t)) == multiset(t.leaves)
  {
    if t.leaves != [] {
      PagesOne(Promoted(t)[0]);
      assert t.leaves == [t.leaves[0]] + t.leaves[1..];
    }
  }

  lemma TrunkTakenPages(chain: seq<Trunk>, i: nat)
    requires i < |chain|
    ensures Pages(TrunkTaken(chain, i)) + multiset{chain[i].pgno} == Pages(chain)
  {
    PagesAt(chain, i);
    PagesReplaced(chain, i, Promoted(chain[i]));
    PromotedPages(chain[i]);
  }

  lemma LeafTakenPages(chain: seq<Trunk>, i: nat, c: nat)
    requires i < |chain| && c < |chain[i].leaves|
    ensures Pages(LeafTaken(chain, i, c)) + multiset{chain[i].leaves[c]} == Pages(chain)
  {
    var t := chain[i];
    var u := Trunk(t.pgno, Without(t.leaves, c));
    PagesAt(chain, i);
    PagesReplaced(chain, i, [u]);
    PagesOne(u);
    WithoutIs(t.leaves, c);
  }

  lemma ApartSets(all: multiset<Pgno>, a: multiset<Pgno>, x: Pgno, b: multiset<Pgno>, c: multiset<Pgno>)
    requires NoRepeats(all) && all == a + (multiset{x} + b) + c
    ensures NoRepeats(a) && NoRepeats(b) && NoRepeats(c) && x !in a && x !in b && x !in c
    ensures (forall p | p in a :: p !in b && p !in c) && (forall p | p in b :: p !in c)
  {
    forall p ensures a[p] + b[p] + c[p] + multiset{x}[p] <= 1 { assert all[p] <= 1; }
  }

  /** The pages before, at and after trunk i are all different. */
  lemma Apart(chain: seq<Trunk>, i: nat)
    requires i < |chain| && NoRepeats(Pages(chain))
    ensures var a, x, b, c := Pages(chain[..i]), chain[i].pgno, multiset(chain[i].leaves), Pages(chain[i + 1..]);
      && NoRepeats(a) && NoRepeats(b) && NoRepeats(c) && x !in a && x !in b && x !in c
      && (forall p | p in a :: p !in b && p !in c) && (forall p | p in b :: p !in c)
  {
    PagesAt(chain, i);
    ApartSets(Pages(chain), Pages(chain[..i]), chain[i].pgno, multiset(chain[i].leaves), Pages(chain[i + 1..]));
  }

  /** Taking one page off keeps all pages different. */
  lemma StillApart(s: multiset<Pgno>, t: multiset<Pgno>, p: Pgno)
    requires NoRepeats(s) && t + multiset{p} == s
    ensures NoRepeats(t) && p !in t && t == s - multiset{p} && |t| == |s| - 1 && p in s
  {
    forall q | q in t ensures t[q] == 1 && q != p { assert s[q] == 1; }
    assert s[p] >= 1;
  }

  /** Make the trunk before, or the header, point to another trunk. */
  function Relink(f: Free, prev: Pgno, to: Pgno): Free
    requires prev == 0 || prev in f.pages
  {
    if prev == 0 then f.(first := to) else f.(pages := f.pages[prev := f.pages[prev].(next := to)])
  }

  /** The page of a trunk without its leaf c. */
  function PageWithout(p: Page, c: nat): Page
    requires c < p.k <= |p.slots|
  {
    p.(k := p.k - 1, slots := if c < p.k - 1 then p.slots[c := p.slots[p.k - 1]] else p.slots)
  }

  /** The first leaf of a trunk as a trunk with the other leaves. */
  function PagePromoted(t: Page, leaf: Page): Page
    requires 0 < t.k <= |t.slots| && |leaf.slots| == |t.slots|
  {
    Page(t.next, t.k - 1, t.slots[1..t.k] + leaf.slots[t.k - 1..])
  }

  /** A list in three parts: trunks before t, t, and trunks after it. */
  ghost predicate Parts(pages: Store, first: Pgno, pre: seq<Trunk>, t: Trunk, post: seq<Trunk>) {
    && Linked(pages, first, pre, t.pgno) && t.pgno in pages && TrunkAt(pages, t, pages[t.pgno].next)
    && Linked(pages, pages[t.pgno].next, post, 0)
    && NoRepeats(Pages(pre)) && PartsApart(Pages(pre), t.pgno, multiset(t.leaves), Pages(post))
  }

  ghost predicate PartsApart(a: multiset<Pgno>, x: Pgno, b: multiset<Pgno>, c: multiset<Pgno>) {
    x !in a && x !in b && x !in c && (forall p | p in a :: p !in b && p !in c) && (forall p | p in b :: p !in c)
  }

  lemma CutAt(pages: Store, first: Pgno, chain: seq<Trunk>, i: nat)
    requires Linked(pages, first, chain, 0) && NoRepeats(Pages(chain)) && i < |chain|
    ensures Parts(pages, first, chain[..i], chain[i], chain[i + 1..])
  {
    CutLinked(pages, first, chain, i);
    Apart(chain, i);
  }

  lemma CutLinked(pages: Store, first: Pgno, chain: seq<Trunk>, i: nat)
    requires Linked(pages, first, chain, 0) && i < |chain|
    ensures var t := chain[i];
      && Linked(pages, first, chain[..i], t.pgno) && t.pgno in pages && TrunkAt(pages, t, pages[t.pgno].next)
      && Linked(pages, pages[t.pgno].next, chain[i + 1..], 0)
  {
    var m := LinkedSplit(pages, first, chain, i, 0);
    assert chain[i..][0] == chain[i] && chain[i..][1..] == chain[i + 1..];
  }

  lemma JoinParts(pages: Store, first: Pgno, pre: seq<Trunk>, m: Pgno, mid: seq<Trunk>, n: Pgno, post: seq<Trunk>)
    requires Linked(pages, first, pre, m) && Linked(pages, m, mid, n) && Linked(pages, n, post, 0)
    ensures Linked(pages, first, pre + mid + post, 0)
  {
    LinkedConcat(pages, first, pre, m, mid, n);
    LinkedConcat(pages, first, pre + mid, n, post, 0);
  }

  lemma OneLinked(pages: Store, t: Trunk, next: Pgno)
    requires t.pgno in pages && TrunkAt(pages, t, next)
    ensures Linked(pages, t.pgno, [t], next)
  {
    assert [t][1..] == [];
  }

  lemma LeafTakenAt(pages: Store, t: Trunk, next: Pgno, c: nat)
    requires t.pgno in pages && TrunkAt(pages, t, next) && c < |t.leaves|
    ensures TrunkAt(pages[t.pgno := PageWithout(pages[t.pgno], c)], Trunk(t.pgno, Without(t.leaves, c)), next)
  {
    WithoutAt(pages[t.pgno], t, c);
  }

  lemma LeafTakenLinked(pages: Store, first: Pgno, pre: seq<Trunk>, t: Trunk, post: seq<Trunk>, c: nat)
    requires Parts(pages, first, pre, t, post) && c < |t.leaves|
    ensures Linked(pages[t.pgno := PageWithout(pages[t.pgno], c)], first, pre + [Trunk(t.pgno, Without(t.leaves, c))] + post, 0)
  {
    var p := pages[t.pgno];
    var after := pages[t.pgno := PageWithout(p, c)];
    LinkedFrame(pages, after, first, pre, t.pgno);
    LinkedFrame(pages, after, p.next, post, 0);
    LeafTakenAt(pages, t, p.next, c);
    OneLinked(after, Trunk(t.pgno, Without(t.leaves, c)), p.next);
    JoinParts(after, first, pre, t.pgno, [Trunk(t.pgno, Without(t.leaves, c))], p.next, post);
  }

  lemma WithoutAt(p: Page, t: Trunk, c: nat)
    requires p.k == |t.leaves| <= |p.slots| && p.slots[..p.k] == t.leaves && c < |t.leaves|
    ensures var q := PageWithout(p, c); q.k == |t.leaves| - 1 && q.slots[..q.k] == Without(t.leaves, c)
  {
  }

  function LastPgno(pre: seq<Trunk>): Pgno {
    if pre == [] then 0 else pre[|pre| - 1].pgno
  }

  /** Make what comes before t point to another page. */
  lemma Unlinked(f: Free, pre: seq<Trunk>, t: Trunk, post: seq<Trunk>, to: Pgno)
    requires Parts(f.pages, f.first, pre, t, post) && forall p | p in Pages(pre) :: p != 0
    ensures LastPgno(pre) == 0 || LastPgno(pre) in f.pages
    ensures var g := Relink(f, LastPgno(pre), to);
      Linked(g.pages, g.first, pre, to) && Linked(g.pages, f.pages[t.pgno].next, post, 0)
    ensures pre != [] ==> LastPgno(pre) in Pages(pre)
  {
    if pre != [] {
      LinkedRelink(f.pages, f.first, pre, t.pgno, to);
      TrunkInPages(pre, |pre| - 1);
      var g := Relink(f, LastPgno(pre), to);
      LinkedFrame(f.pages, g.pages, f.pages[t.pgno].next, post, 0);
    }
  }

  lemma TrunkTakenEmpty(f: Free, pre: seq<Trunk>, t: Trunk, post: seq<Trunk>)
    requires Parts(f.pages, f.first, pre, t, post) && t.leaves == [] && forall p | p in Pages(pre) :: p != 0
    ensures LastPgno(pre) == 0 || LastPgno(pre) in f.pages
    ensures var g := Relink(f, LastPgno(pre), f.pages[t.pgno].next); Linked(g.pages, g.first, pre + Promoted(t) + post, 0)
  {
    var next := f.pages[t.pgno].next;
    Unlinked(f, pre, t, post, next);
    var g := Relink(f, LastPgno(pre), next);
    JoinParts(g.pages, g.first, pre, next, [], next, post);
  }

  /** Put the first leaf of a trunk in the trunk's place. */
  function Promote(f: Free, prev: Pgno, t: Pgno): Free
    requires t in f.pages && var p := f.pages[t]; 0 < p.k <= |p.slots| && p.slots[0] in f.pages && |f.pages[p.slots[0]].slots| == |p.slots|
    requires prev == 0 || prev in f.pages
  {
    var p := f.pages[t];
    Relink(f.(pages := f.pages[p.slots[0] := PagePromoted(p, f.pages[p.slots[0]])]), prev, p.slots[0])
  }

  lemma TrunkTakenPromoted(f: Free, pre: seq<Trunk>, t: Trunk, post: seq<Trunk>)
    requires Parts(f.pages, f.first, pre, t, post) && t.leaves != [] && forall p | p in Pages(pre) :: p != 0
    requires t.leaves[0] in f.pages && t.leaves[0] != 0 && |f.pages[t.leaves[0]].slots| == |f.pages[t.pgno].slots|
    ensures LastPgno(pre) == 0 || LastPgno(pre) in f.pages
    ensures var p := f.pages[t.pgno]; 0 < p.k <= |p.slots| && p.slots[0] == t.leaves[0]
    ensures var g := Promote(f, LastPgno(pre), t.pgno); Linked(g.pages, g.first, pre + Promoted(t) + post, 0)
  {
    var l, p := t.leaves[0], f.pages[t.pgno];
    assert p.slots[0] == p.slots[..p.k][0] == l;
    var h := f.(pages := f.pages[l := PagePromoted(p, f.pages[l])]);
    assert l in multiset(t.leaves);
    PartsKept(f.pages, h.pages, f.first, pre, t, post, l);
    Unlinked(h, pre, t, post, l);
    var g := Relink(h, LastPgno(pre), l);
    PromotedAt(p, f.pages[l], t);
    OneLinked(g.pages, Trunk(l, t.leaves[1..]), p.next);
    JoinParts(g.pages, g.first, pre, l, Promoted(t), p.next, post);
  }

  /** A change to one of the leaves of t leaves the parts as they are. */
  lemma PartsKept(pages: Store, after: Store, first: Pgno, pre: seq<Trunk>, t: Trunk, post: seq<Trunk>, l: Pgno)
    requires Parts(pages, first, pre, t, post) && l in multiset(t.leaves)
    requires forall p | p in pages && p != l :: p in after && after[p] == pages[p]
    ensures Parts(after, first, pre, t, post)
  {
    LinkedFrame(pages, after, first, pre, t.pgno);
    LinkedFrame(pages, after, pages[t.pgno].next, post, 0);
  }

  lemma PromotedAt(t: Page, leaf: Page, trunk: Trunk)
    requires 0 < t.k <= |t.slots| && |leaf.slots| == |t.slots| && t.slots[..t.k] == trunk.leaves
    ensures var p := PagePromoted(t, leaf); p.k == |trunk.leaves[1..]| <= |p.slots| && p.slots[..p.k] == trunk.leaves[1..]
  {
    assert t.slots[1..t.k] == t.slots[..t.k][1..];
  }

  // ---------------------------------------------------------------------
  // What allocation keeps
  // ---------------------------------------------------------------------

  lemma LeavesFitReplaced(chain: seq<Trunk>, i: nat, mid: seq<Trunk>, capacity: nat)
    requires LeavesFit(chain, capacity) && i < |chain| && LeavesFit(mid, capacity)
    ensures LeavesFit(chain[..i] + mid + chain[i + 1..], capacity)
  {
    var r := chain[..i] + mid + chain[i + 1..];
    forall j | 0 <= j < |r| ensures |r[j].leaves| <= capacity {
      if j < i { assert r[j] == chain[j]; }
      else if j < i + |mid| { assert r[j] == mid[j - i]; }
      else { assert r[j] == chain[j - |mid| + 1]; }
    }
  }

  lemma LeafTakenLists(f: Free, chain: seq<Trunk>, usableSize: nat, i: nat, c: nat)
    requires Valid(f, chain, usableSize) && i < |chain| && c < |chain[i].leaves|
    ensures var t := chain[i].pgno; t in f.pages && f.pages[t].k == |chain[i].leaves| <= |f.pages[t].slots|
    ensures var t := chain[i].pgno; Linked(f.pages[t := PageWithout(f.pages[t], c)], f.first, LeafTaken(chain, i, c), 0)
    ensures LeavesFit(LeafTaken(chain, i, c), Capacity(usableSize))
  {
    CutAt(f.pages, f.first, chain, i);
    LeafTakenLinked(f.pages, f.first, chain[..i], chain[i], chain[i + 1..], c);
    LeavesFitReplaced(chain, i, [Trunk(chain[i].pgno, Without(chain[i].leaves, c))], Capacity(usableSize));
  }

  lemma LeafTakenValid(f: Free, chain: seq<Trunk>, usableSize: nat, i: nat, c: nat)
    requires Valid(f, chain, usableSize) && i < |chain| && c < |chain[i].leaves|
    ensures var t := chain[i].pgno; t in f.pages && f.pages[t].k == |chain[i].leaves| <= |f.pages[t].slots| && f.count > 0
    ensures var t := chain[i].pgno;
      Valid(Free(f.first, f.count - 1, f.pages[t := PageWithout(f.pages[t], c)]), LeafTaken(chain, i, c), usableSize)
    ensures Pages(LeafTaken(chain, i, c)) == Pages(chain) - multiset{chain[i].leaves[c]} && chain[i].leaves[c] in Pages(chain)
  {
    LeafTakenLists(f, chain, usableSize, i, c);
    LeafTakenPages(chain, i, c);
    StillApart(Pages(chain), Pages(LeafTaken(chain, i, c)), chain[i].leaves[c]);
  }

  /** Where a trunk can be taken. */
  predicate CanTake(f: Free, prev: Pgno, t: Pgno) {
    && t in f.pages && (prev == 0 || prev in f.pages) && f.count > 0
    && (f.pages[t].k > 0 ==>
      (var p := f.pages[t]; p.k <= |p.slots| && p.slots[0] in f.pages && |f.pages[p.slots[0]].slots| == |p.slots|))
  }

  /** The bytes after trunk t, with prev before it, is taken. */
  function TakeTrunk(f: Free, prev: Pgno, t: Pgno): Free
    requires CanTake(f, prev, t)
  {
    (if f.pages[t].k == 0 then Relink(f, prev, f.pages[t].next) else Promote(f, prev, t)).(count := f.count - 1)
  }

  lemma TrunkTakenLists(f: Free, chain: seq<Trunk>, usableSize: nat, i: nat)
    requires Valid(f, chain, usableSize) && i < |chain|
    ensures f.count > 0
    ensures var t, prev := chain[i].pgno, LastPgno(chain[..i]); CanTake(f, prev, t)
    ensures var t, prev := chain[i].pgno, LastPgno(chain[..i]);
      var g := TakeTrunk(f, prev, t);
      Linked(g.pages, g.first, TrunkTaken(chain, i), 0) && Stored(g.pages, Pages(chain), usableSize)
  {
    var t := chain[i];
    CutAt(f.pages, f.first, chain, i);
    PagesAt(chain, i);
    TrunkInPages(chain, i);
    PromotedLists(f, chain[..i], t, chain[i + 1..], Pages(chain), usableSize);
  }

  lemma PromoteStored(f: Free, prev: Pgno, t: Pgno, all: multiset<Pgno>, usableSize: nat)
    requires t in f.pages && var p := f.pages[t]; 0 < p.k <= |p.slots| && p.slots[0] in f.pages && |f.pages[p.slots[0]].slots| == |p.slots|
    requires (prev == 0 || prev in f.pages) && Stored(f.pages, all, usableSize)
    ensures Stored(Promote(f, prev, t).pages, all, usableSize)
  {
    var p := f.pages[t];
    var l := p.slots[0];
    RelinkStored(f.(pages := f.pages[l := PagePromoted(p, f.pages[l])]), prev, l, all, usableSize);
  }

  lemma PromotedLists(f: Free, pre: seq<Trunk>, t: Trunk, post: seq<Trunk>, all: multiset<Pgno>, usableSize: nat)
    requires Parts(f.pages, f.first, pre, t, post) && f.count > 0
    requires Stored(f.pages, all, usableSize) && t.pgno in all && (forall p | p in t.leaves :: p in all) && forall p | p in Pages(pre) :: p in all
    ensures CanTake(f, LastPgno(pre), t.pgno)
    ensures var g := TakeTrunk(f, LastPgno(pre), t.pgno);
      Linked(g.pages, g.first, pre + Promoted(t) + post, 0) && Stored(g.pages, all, usableSize)
  {
    if t.leaves == [] {
      TrunkTakenEmpty(f, pre, t, post);
      RelinkStored(f, LastPgno(pre), f.pages[t.pgno].next, all, usableSize);
      return;
    }
    TrunkTakenPromoted(f, pre, t, post);
    PromoteStored(f, LastPgno(pre), t.pgno, all, usableSize);
  }

  lemma TrunkTakenValid(f: Free, chain: seq<Trunk>, usableSize: nat, i: nat)
    requires Valid(f, chain, usableSize) && i < |chain|
    ensures CanTake(f, LastPgno(chain[..i]), chain[i].pgno)
    ensures Valid(TakeTrunk(f, LastPgno(chain[..i]), chain[i].pgno), TrunkTaken(chain, i), usableSize)
    ensures Pages(TrunkTaken(chain, i)) == Pages(chain) - multiset{chain[i].pgno} && chain[i].pgno in Pages(chain)
  {
    TrunkTakenPages(chain, i);
    TrunkTakenLists(f, chain, usableSize, i);
    PromotedFits(chain, i, Capacity(usableSize));
    Assemble(TakeTrunk(f, LastPgno(chain[..i]), chain[i].pgno), TrunkTaken(chain, i), usableSize, Pages(chain), chain[i].pgno);
  }

  lemma PromotedFits(chain: seq<Trunk>, i: nat, capacity: nat)
    requires LeavesFit(chain, capacity) && i < |chain|
    ensures LeavesFit(TrunkTaken(chain, i), capacity)
  {
    assert |chain[i].leaves| <= capacity;
    LeavesFitReplaced(chain, i, Promoted(chain[i]), capacity);
  }

  /** A sound list from its parts, with page x gone. */
  lemma Assemble(g: Free, r: seq<Trunk>, usableSize: nat, all: multiset<Pgno>, x: Pgno)
    requires usableSize >= 480 && Linked(g.pages, g.first, r, 0) && LeavesFit(r, Capacity(usableSize))
    requires NoRepeats(all) && Stored(g.pages, all, usableSize) && Pages(r) + multiset{x} == all && g.count + 1 == |all|
    ensures Valid(g, r, usableSize) && Pages(r) == all - multiset{x} && x in all
  {
    StillApart(all, Pages(r), x);
    FewerStored(g.pages, all, Pages(r), usableSize);
  }

  lemma FewerStored(pages: Store, all: multiset<Pgno>, some: multiset<Pgno>, usableSize: nat)
    requires Stored(pages, all, usableSize) && some <= all
    ensures Stored(pages, some, usableSize)
  {
  }

  lemma RelinkStored(f: Free, prev: Pgno, to: Pgno, all: multiset<Pgno>, usableSize: nat)
    requires Stored(f.pages, all, usableSize) && (prev == 0 || prev in f.pages)
    ensures Stored(Relink(f, prev, to).pages, all, usableSize)
  {
  }

  // ---------------------------------------------------------------------
  // Old numbers in an empty trunk
  // ---------------------------------------------------------------------

  /** Trunk i is without leaves, is not the page looked for, and has its number
      as an old entry in its first place; and that page comes later. */
  predicate StaleAt(f: Free, chain: seq<Trunk>, nearby: Pgno, i: nat) {
    && i < |chain| && chain[i].leaves == [] && chain[i].pgno != nearby && nearby !in Pages(chain[..i])
    && chain[i].pgno in f.pages && f.pages[chain[i].pgno].slots != [] && f.pages[chain[i].pgno].slots[0] == nearby
  }

  ghost predicate Stale(f: Free, chain: seq<Trunk>, nearby: Pgno) {
    exists i: nat :: StaleAt(f, chain, nearby, i)
  }

  const U32: nat := 0x1_0000_0000

  /** The trunks that have leaves. */
  function Busy(chain: seq<Trunk>): set<Pgno> {
    if chain == [] then {} else (if chain[0].leaves == [] then {} else {chain[0].pgno}) + Busy(chain[1..])
  }

  lemma {:induction false} BusyConcat(a: seq<Trunk>, b: seq<Trunk>)
    ensures Busy(a + b) == Busy(a) + Busy(b)
  {
    if a == [] {
      assert a + b == b;
    } else {
      assert (a + b)[1..] == a[1..] + b;
      BusyConcat(a[1..], b);
    }
  }

  lemma BusyReplaced(chain: seq<Trunk>, i: nat, mid: seq<Trunk>)
    requires i < |chain|
    ensures Busy(chain) == Busy(chain[..i]) + Busy([chain[i]]) + Busy(chain[i + 1..])
    ensures Busy(chain[..i] + mid + chain[i + 1..]) == Busy(chain[..i]) + Busy(mid) + Busy(chain[i + 1..])
  {
    SplitSeq(chain, i);
    BusyConcat(chain[..i], [chain[i]] + chain[i + 1..]);
    BusyConcat([chain[i]], chain[i + 1..]);
    BusyConcat(chain[..i] + mid, chain[i + 1..]);
    BusyConcat(chain[..i], mid);
  }

  lemma BusyOne(t: Trunk)
    ensures Busy([t]) == if t.leaves == [] then {} else {t.pgno}
  {
    assert [t][1..] == [];
  }

  /** Page p is a trunk with leaves, or what its first place holds is not the number
      of a page on the list. */
  predicate Quiet(pages: Store, all: multiset<Pgno>, busy: set<Pgno>, p: Pgno) {
    p in busy || (p in pages && pages[p].slots != [] ==> pages[p].slots[0] !in all)
  }

  /** That is so for every page on the list. */
  ghost predicate Clean(f: Free, chain: seq<Trunk>) {
    forall p | p in Pages(chain) :: Quiet(f.pages, Pages(chain), Busy(chain), p)
  }

  /** What is left when a leaf is taken from trunk t although it has none. */
  function Overdrawn(f: Free, t: Pgno): Free
    requires f.count > 0 && t in f.pages
  {
    Free(f.first, f.count - 1, f.pages[t := f.pages[t].(k := U32 - 1)])
  }

  datatype Draw = Drawn(pgno: Pgno) | BadTrunk

  /** A count as it is read: signed. */
  function Signed(k: nat): int {
    if k < U32 / 2 then k else k - U32
  }

  /** The page that allocation without a search draws from the first trunk. */
  function DrawFirst(f: Free, usableSize: nat): Draw
    requires f.first in f.pages && f.pages[f.first].slots != []
  {
    var trunk := f.pages[f.first];
    if trunk.k == 0 then Drawn(f.first)
    else if Signed(trunk.k) > usableSize / 4 - 8 then BadTrunk
    else Drawn(trunk.slots[0])
  }

  /** When an empty first trunk has misled an exact search, the next allocation
      returns the same page again. */
  lemma GivenTwice(f: Free, chain: seq<Trunk>, usableSize: nat, nearby: Pgno)
    requires Valid(f, chain, usableSize) && StaleAt(f, chain, nearby, 0)
    ensures f.count > 0 && f.first in f.pages
    ensures var g := Overdrawn(f, f.first); g.first in g.pages && g.pages[g.first].slots != [] && DrawFirst(g, usableSize) == Drawn(nearby)
  {
    FirstTrunk(f, chain, usableSize);
  }

  /** Then no search is misled. */
  lemma CleanNotStale(f: Free, chain: seq<Trunk>, nearby: Pgno)
    requires Clean(f, chain) && NoRepeats(Pages(chain)) && nearby in Pages(chain)
    ensures !Stale(f, chain, nearby)
  {
    forall i: nat ensures !StaleAt(f, chain, nearby, i) {
      if i < |chain| && chain[i].leaves == [] {
        TrunkInPages(chain, i);
        NotBusy(chain, i);
        assert Quiet(f.pages, Pages(chain), Busy(chain), chain[i].pgno);
      }
    }
  }

  lemma {:induction false} BusyOnList(chain: seq<Trunk>)
    ensures forall p | p in Busy(chain) :: p in Pages(chain)
  {
    if chain != [] { BusyOnList(chain[1..]); }
  }

  lemma NotBusy(chain: seq<Trunk>, i: nat)
    requires i < |chain| && chain[i].leaves == [] && NoRepeats(Pages(chain))
    ensures chain[i].pgno !in Busy(chain)
  {
    Apart(chain, i);
    BusyReplaced(chain, i, []);
    BusyOne(chain[i]);
    BusyOnList(chain[..i]);
    BusyOnList(chain[i + 1..]);
  }

  lemma Gone(all: multiset<Pgno>, some: multiset<Pgno>, x: Pgno)
    requires NoRepeats(all) && some == all - multiset{x} && x in all
    ensures x !in some && some <= all
  {
  }

  /** Fewer pages on the list, and but for x what is in their first places is as it
      was, where it counts. */
  lemma CleanStep(pages: Store, all: multiset<Pgno>, busy: set<Pgno>, after: Store, some: multiset<Pgno>, left: set<Pgno>, x: Pgno)
    requires some <= all && forall p | p in all :: Quiet(pages, all, busy, p)
    requires forall p | p in busy :: p == x || p in left
    requires forall p | p in after && p !in left && p != x :: p in pages && after[p].slots == pages[p].slots
    requires x in some ==> Quiet(after, some, left, x)
    ensures forall p | p in some :: Quiet(after, some, left, p)
  {
    forall p | p in some ensures Quiet(after, some, left, p) { assert Quiet(pages, all, busy, p); }
  }

  lemma BusyLess(chain: seq<Trunk>, i: nat, mid: seq<Trunk>)
    requires i < |chain|
    ensures var left := Busy(chain[..i] + mid + chain[i + 1..]);
      (forall p | p in Busy(chain) :: p == chain[i].pgno || p in left) && forall p | p in Busy(mid) :: p in left
  {
    BusyReplaced(chain, i, mid);
    BusyOne(chain[i]);
  }

  lemma BusyLeafTaken(chain: seq<Trunk>, i: nat, c: nat)
    requires i < |chain| && c < |chain[i].leaves|
    ensures var left := Busy(LeafTaken(chain, i, c));
      (forall p | p in Busy(chain) :: p == chain[i].pgno || p in left) && (|chain[i].leaves| > 1 ==> chain[i].pgno in left)
  {
    var u := Trunk(chain[i].pgno, Without(chain[i].leaves, c));
    BusyLess(chain, i, [u]);
    BusyOne(u);
  }

  /** The last leaf of a trunk is in its first place, and stays there. */
  lemma TakenQuiet(pages: Store, some: multiset<Pgno>, left: set<Pgno>, t: Trunk, c: nat)
    requires t.pgno in pages && var p := pages[t.pgno]; p.k == |t.leaves| <= |p.slots| && p.slots[..p.k] == t.leaves
    requires c < |t.leaves| && t.leaves[c] !in some && (|t.leaves| > 1 ==> t.pgno in left)
    ensures Quiet(pages[t.pgno := PageWithout(pages[t.pgno], c)], some, left, t.pgno)
  {
    var p := pages[t.pgno];
    assert p.slots[..p.k][0] == p.slots[0];
  }

  lemma CleanWithout(f: Free, chain: seq<Trunk>, i: nat, c: nat, g: Free)
    requires Clean(f, chain) && i < |chain| && c < |chain[i].leaves|
    requires chain[i].pgno in f.pages && TrunkAt(f.pages, chain[i], f.pages[chain[i].pgno].next)
    requires var all, some := Pages(chain), Pages(LeafTaken(chain, i, c)); some <= all && chain[i].leaves[c] !in some
    requires g.pages == f.pages[chain[i].pgno := PageWithout(f.pages[chain[i].pgno], c)]
    ensures Clean(g, LeafTaken(chain, i, c))
  {
    var t, r := chain[i], LeafTaken(chain, i, c);
    BusyLeafTaken(chain, i, c);
    TakenQuiet(f.pages, Pages(r), Busy(r), t, c);
    CleanStep(f.pages, Pages(chain), Busy(chain), g.pages, Pages(r), Busy(r), t.pgno);
  }

  lemma CleanLeafTaken(f: Free, chain: seq<Trunk>, usableSize: nat, i: nat, c: nat)
    requires Valid(f, chain, usableSize) && Clean(f, chain) && i < |chain| && c < |chain[i].leaves|
    ensures var t := chain[i].pgno; t in f.pages && f.pages[t].k == |chain[i].leaves| <= |f.pages[t].slots| && f.count > 0
    ensures var t := chain[i].pgno;
      Clean(Free(f.first, f.count - 1, f.pages[t := PageWithout(f.pages[t], c)]), LeafTaken(chain, i, c))
  {
    LeafTakenValid(f, chain, usableSize, i, c);
    var t := chain[i];
    Gone(Pages(chain), Pages(LeafTaken(chain, i, c)), t.leaves[c]);
    CutLinked(f.pages, f.first, chain, i);
    CleanWithout(f, chain, i, c, Free(f.first, f.count - 1, f.pages[t.pgno := PageWithout(f.pages[t.pgno], c)]));
  }

  lemma CleanTrunkTaken(f: Free, chain: seq<Trunk>, usableSize: nat, i: nat)
    requires Valid(f, chain, usableSize) && Clean(f, chain) && i < |chain|
    ensures CanTake(f, LastPgno(chain[..i]), chain[i].pgno)
    ensures Clean(TakeTrunk(f, LastPgno(chain[..i]), chain[i].pgno), TrunkTaken(chain, i))
  {
    TrunkTakenValid(f, chain, usableSize, i);
    var t, r := chain[i], TrunkTaken(chain, i);
    Gone(Pages(chain), Pages(r), t.pgno);
    BusyLess(chain, i, Promoted(t));
    SlotsKept(f, chain, usableSize, i);
    CleanStep(f.pages, Pages(chain), Busy(chain), TakeTrunk(f, LastPgno(chain[..i]), t.pgno).pages, Pages(r), Busy(r), t.pgno);
  }

  /** No page but the trunk and a new trunk that has leaves gets other numbers. */
  lemma SlotsKept(f: Free, chain: seq<Trunk>, usableSize: nat, i: nat)
    requires Valid(f, chain, usableSize) && i < |chain| && CanTake(f, LastPgno(chain[..i]), chain[i].pgno)
    ensures var g, left := TakeTrunk(f, LastPgno(chain[..i]), chain[i].pgno), Busy(TrunkTaken(chain, i));
      forall p | p in g.pages && p !in left && p != chain[i].pgno :: p in f.pages && g.pages[p].slots == f.pages[p].slots
  {
    var t := chain[i];
    var g, left := TakeTrunk(f, LastPgno(chain[..i]), t.pgno), Busy(TrunkTaken(chain, i));
    BusyLess(chain, i, Promoted(t));
    if t.leaves != [] { BusyOne(Promoted(t)[0]); }
    CutLinked(f.pages, f.first, chain, i);
    forall p | p in g.pages && p !in left && p != t.pgno ensures p in f.pages && g.pages[p].slots == f.pages[p].slots {
      SlotsAfter(f, LastPgno(chain[..i]), t, p);
    }
  }

  /** Only the page of a new trunk that has leaves gets other numbers. */
  lemma SlotsAfter(f: Free, prev: Pgno, t: Trunk, q: Pgno)
    requires CanTake(f, prev, t.pgno) && q in TakeTrunk(f, prev, t.pgno).pages && !(|t.leaves| > 1 && q == t.leaves[0])
    requires var p := f.pages[t.pgno]; p.k == |t.leaves| <= |p.slots| && p.slots[..p.k] == t.leaves
    ensures q in f.pages && TakeTrunk(f, prev, t.pgno).pages[q].slots == f.pages[q].slots
  {
    var p := f.pages[t.pgno];
    if t.leaves != [] {
      assert p.slots[..p.k][0] == p.slots[0];
      if |t.leaves| == 1 { PromotedAlone(p, f.pages[t.leaves[0]]); }
    }
  }

  lemma PromotedAlone(t: Page, leaf: Page)
    requires t.k == 1 <= |t.slots| && |leaf.slots| == |t.slots|
    ensures PagePromoted(t, leaf).slots == leaf.slots
  {
  }

  /** A trunk that counts more leaves than it has room for breaks the list for
      good. */
  lemma {:induction false} NothingLinked(pages: Store, a: Pgno, seg: seq<Trunk>, t: Pgno, c: seq<Trunk>)
    requires Linked(pages, a, seg, t) && t != 0 && t in pages && pages[t].k > |pages[t].slots|
    ensures !Linked(pages, a, c, 0)
    decreases |seg|
  {
    if seg != [] && c != [] && a in pages { NothingLinked(pages, pages[a].next, seg[1..], t, c[1..]); }
  }

  lemma StaleBreaks(f: Free, chain: seq<Trunk>, usableSize: nat, i: nat, g: Free, c: seq<Trunk>)
    requires Valid(f, chain, usableSize) && i < |chain| && usableSize <= 32768
    requires chain[i].pgno in f.pages && g.first == f.first
    requires g.pages == f.pages[chain[i].pgno := f.pages[chain[i].pgno].(k := U32 - 1)]
    ensures !Valid(g, c, usableSize)
  {
    CutAt(f.pages, f.first, chain, i);
    PagesAt(chain, i);
    LinkedFrame(f.pages, g.pages, f.first, chain[..i], chain[i].pgno);
    NothingLinked(g.pages, g.first, chain[..i], chain[i].pgno, c);
  }

  // ---------------------------------------------------------------------
  // The operations
  // ---------------------------------------------------------------------

  function Distance(a: Pgno, b: Pgno): nat {
    if a < b then b - a else a - b
  }

  /** The entry closest to a page number; entry 0 when there is nothing to choose
      from. */
  method FindClosest(slots: seq<Pgno>, k: nat, nearby: Pgno) returns (closest: nat)
    requires k <= |slots| && slots != []
    ensures closest < |slots| && (closest < k || closest == 0)
    ensures nearby > 0 ==> forall j | 0 <= j < k :: Distance(slots[closest], nearby) <= Distance(slots[j], nearby)
    ensures nearby > 0 ==> forall j | 0 <= j < closest :: Distance(slots[closest], nearby) < Distance(slots[j], nearby)
    ensures nearby == 0 ==> closest == 0
  {
    closest := 0;
    if nearby > 0 {
      var dist := Distance(slots[0], nearby);
      var i: nat := 1;
      while i < k
        invariant 1 <= i && closest < |slots| && (closest < k || closest == 0) && dist == Distance(slots[closest], nearby)
        invariant closest < i && forall j | 0 <= j < closest :: dist < Distance(slots[j], nearby)
        invariant forall j | 0 <= j < i && j < k :: dist <= Distance(slots[j], nearby)
      {
        var d2 := Distance(slots[i], nearby);
        if d2 < dist { closest, dist := i, d2; }
        i := i + 1;
      }
    }
  }

  /** The body of freePage. */
  method PutOnList(f: Free, p: Pgno, usableSize: nat) returns (g: Free)
    requires usableSize >= 480 && p in f.pages
    requires f.count > 0 ==> f.first in f.pages && f.pages[f.first].k < |f.pages[f.first].slots|
    ensures g == FreePageBytes(f, p, Capacity(usableSize))
  {
    var n := f.count;
    g := f.(count := n + 1);
    if n == 0 {
      g := Free(p, g.count, g.pages[p := g.pages[p].(next := 0, k := 0)]);
    } else {
      var trunk := g.pages[g.first];
      var k := trunk.k;
      if k >= usableSize / 4 - 8 {
        g := Free(p, g.count, g.pages[p := g.pages[p].(next := g.first, k := 0)]);
      } else {
        g := g.(pages := g.pages[g.first := trunk.(k := k + 1, slots := trunk.slots[k := p])]);
      }
    }
  }

  /** Where the loop of allocateBtreePage is: at trunk i, after prev. */
  ghost predicate Searching(f: Free, chain: seq<Trunk>, searchList: bool, nearby: Pgno, i: nat, prev: Pgno, iTrunk: Pgno) {
    && i < |chain| && iTrunk == chain[i].pgno && prev == LastPgno(chain[..i])
    && (searchList || i == 0) && (searchList ==> nearby in Pages(chain) && nearby !in Pages(chain[..i]))
    && forall j: nat | j < i :: !StaleAt(f, chain, nearby, j)
  }

  lemma PagesPrefix(chain: seq<Trunk>, i: nat)
    requires i < |chain|
    ensures Pages(chain[..i + 1]) == Pages(chain[..i]) + (multiset{chain[i].pgno} + multiset(chain[i].leaves))
  {
    assert chain[..i + 1] == chain[..i] + [chain[i]];
    PagesConcat(chain[..i], [chain[i]]);
    PagesOne(chain[i]);
  }

  lemma NextTrunk(f: Free, chain: seq<Trunk>, i: nat)
    requires Linked(f.pages, f.first, chain, 0) && i + 1 < |chain|
    ensures chain[i].pgno in f.pages && f.pages[chain[i].pgno].next == chain[i + 1].pgno
  {
    var m := LinkedSplit(f.pages, f.first, chain, i, 0);
    assert chain[i..][0] == chain[i] && chain[i..][1..] != [] && chain[i..][1..][0] == chain[i + 1];
  }

  lemma SearchOn(f: Free, chain: seq<Trunk>, usableSize: nat, nearby: Pgno, i: nat, prev: Pgno, iTrunk: Pgno)
    requires Valid(f, chain, usableSize) && Searching(f, chain, true, nearby, i, prev, iTrunk)
    requires nearby != iTrunk && nearby !in chain[i].leaves && !StaleAt(f, chain, nearby, i)
    ensures iTrunk in f.pages && Searching(f, chain, true, nearby, i + 1, iTrunk, f.pages[iTrunk].next)
  {
    assert chain[..|chain|] == chain;
    PagesPrefix(chain, i);
    assert nearby !in Pages(chain[..i + 1]);
    NextTrunk(f, chain, i);
    assert LastPgno(chain[..i + 1]) == chain[i].pgno;
  }

  /** A page found at trunk i: no old number has misled the search. */
  lemma NotStale(f: Free, chain: seq<Trunk>, nearby: Pgno, i: nat)
    requires i < |chain| && (nearby == chain[i].pgno || nearby in chain[i].leaves) && forall j: nat | j < i :: !StaleAt(f, chain, nearby, j)
    ensures !Stale(f, chain, nearby)
  {
    forall j: nat ensures !StaleAt(f, chain, nearby, j) {
      if i < j < |chain| {
        assert chain[..j][i] == chain[i];
        TrunkInPages(chain[..j], i);
      }
    }
  }

  /** What a trunk looks like to the search. */
  lemma TrunkSeen(f: Free, chain: seq<Trunk>, usableSize: nat, i: nat)
    requires Valid(f, chain, usableSize) && i < |chain|
    ensures var t := chain[i].pgno; t in f.pages && f.pages[t].k == |chain[i].leaves| <= |f.pages[t].slots| && f.pages[t].slots != []
    ensures var p := f.pages[chain[i].pgno]; forall j | 0 <= j < p.k :: p.slots[j] == chain[i].leaves[j]
  {
    CutAt(f.pages, f.first, chain, i);
    PagesAt(chain, i);
    var p := f.pages[chain[i].pgno];
    forall j | 0 <= j < p.k ensures p.slots[j] == chain[i].leaves[j] { assert p.slots[..p.k][j] == chain[i].leaves[j]; }
  }

  /** What taking a page must do: the page was on the list, and now exactly this
      page is off it; an exact search takes the page it is for. */
  ghost predicate Taken(chain: seq<Trunk>, g: Free, rest: seq<Trunk>, usableSize: nat, x: Pgno, searchList: bool, nearby: Pgno) {
    && x in Pages(chain) && Valid(g, rest, usableSize) && Pages(rest) == Pages(chain) - multiset{x} && (searchList ==> x == nearby)
  }

  /** No sound list starts from here. */
  ghost predicate Broken(g: Free, usableSize: nat) {
    forall c :: !Valid(g, c, usableSize)
  }

  /** What allocation does: it takes a page as it must, and leaves no numbers that
      could mislead where there were none; but an exact search that an old number
      misleads breaks the list. */
  ghost predicate Drew(f: Free, chain: seq<Trunk>, usableSize: nat, searchList: bool, nearby: Pgno, x: Pgno, g: Free, rest: seq<Trunk>) {
    if searchList && Stale(f, chain, nearby) then Misdrew(f, chain, usableSize, nearby, x, g)
    else
      (&& Taken(chain, g, rest, usableSize, x, searchList, nearby) && (Clean(f, chain) ==> Clean(g, rest))
       && (!searchList ==> Nearest(chain, x, nearby)) && (!searchList && nearby == 0 ==> FirstDrawn(f, usableSize, x)))
  }

  /** What is taken when any page will do: the first trunk when it has no leaves, else
      its first leaf, or the first of those nearest to a page. */
  ghost predicate Nearest(chain: seq<Trunk>, x: Pgno, nearby: Pgno) {
    chain != [] &&
    if chain[0].leaves == [] then x == chain[0].pgno
    else if nearby == 0 then x == chain[0].leaves[0]
    else exists c: nat :: ClosestIs(chain[0].leaves, c, nearby) && x == chain[0].leaves[c]
  }

  /** Place c has the first of the leaves nearest to a page. */
  predicate ClosestIs(leaves: seq<Pgno>, c: nat, nearby: Pgno) {
    && c < |leaves| && (forall j | 0 <= j < |leaves| :: Distance(leaves[c], nearby) <= Distance(leaves[j], nearby))
    && forall j | 0 <= j < c :: Distance(leaves[c], nearby) < Distance(leaves[j], nearby)
  }

  ghost predicate Misdrew(f: Free, chain: seq<Trunk>, usableSize: nat, nearby: Pgno, x: Pgno, g: Free) {
    && x == nearby && Broken(g, usableSize)
    && (StaleAt(f, chain, nearby, 0) ==> f.count > 0 && f.first in f.pages && g == Overdrawn(f, f.first))
  }

  predicate FirstDrawn(f: Free, usableSize: nat, x: Pgno) {
    f.first in f.pages && f.pages[f.first].slots != [] && DrawFirst(f, usableSize) == Drawn(x)
  }

  lemma TakeTrunkHere(f: Free, chain: seq<Trunk>, usableSize: nat, searchList: bool, nearby: Pgno, i: nat, prev: Pgno, iTrunk: Pgno)
    requires Valid(f, chain, usableSize) && Searching(f, chain, searchList, nearby, i, prev, iTrunk)
    requires usableSize <= 32768
    requires if searchList then nearby == iTrunk else iTrunk in f.pages && f.pages[iTrunk].k == 0
    ensures CanTake(f, prev, iTrunk)
    ensures Drew(f, chain, usableSize, searchList, nearby, iTrunk, TakeTrunk(f, prev, iTrunk), TrunkTaken(chain, i))
  {
    TrunkTakenValid(f, chain, usableSize, i);
    if searchList { NotStale(f, chain, nearby, i); } else { FirstSeen(f, chain, usableSize); }
    if Clean(f, chain) { CleanTrunkTaken(f, chain, usableSize, i); }
  }

  /** The first trunk. */
  lemma FirstSeen(f: Free, chain: seq<Trunk>, usableSize: nat)
    requires Valid(f, chain, usableSize) && chain != [] && usableSize <= 32768
    ensures f.first == chain[0].pgno && f.first in f.pages
    ensures var p := f.pages[f.first]; p.slots != [] && p.k == |chain[0].leaves| <= usableSize / 4 - 8 < U32 / 2
  {
    FirstTrunk(f, chain, usableSize);
  }

  lemma TakeLeafHere(f: Free, chain: seq<Trunk>, usableSize: nat, searchList: bool, nearby: Pgno, i: nat, prev: Pgno, iTrunk: Pgno, c: nat)
    requires Valid(f, chain, usableSize) && usableSize <= 32768 && Searching(f, chain, searchList, nearby, i, prev, iTrunk)
    requires c < |chain[i].leaves| && (searchList ==> chain[i].leaves[c] == nearby) && (!searchList && nearby == 0 ==> c == 0)
    requires !searchList && nearby > 0 ==> ClosestIs(chain[i].leaves, c, nearby)
    ensures f.count > 0 && iTrunk in f.pages && c < f.pages[iTrunk].k <= |f.pages[iTrunk].slots|
    ensures Drew(f, chain, usableSize, searchList, nearby, chain[i].leaves[c],
                 Free(f.first, f.count - 1, f.pages[iTrunk := PageWithout(f.pages[iTrunk], c)]), LeafTaken(chain, i, c))
  {
    LeafTakenValid(f, chain, usableSize, i, c);
    if searchList {
      NotStale(f, chain, nearby, i);
    } else {
      FirstSeen(f, chain, usableSize);
      TrunkSeen(f, chain, usableSize, 0);
    }
    if Clean(f, chain) { CleanLeafTaken(f, chain, usableSize, i, c); }
  }

  lemma StaleHere(f: Free, chain: seq<Trunk>, usableSize: nat, nearby: Pgno, i: nat, prev: Pgno, iTrunk: Pgno, rest: seq<Trunk>)
    requires Valid(f, chain, usableSize) && Searching(f, chain, true, nearby, i, prev, iTrunk)
    requires StaleAt(f, chain, nearby, i) && usableSize <= 32768 && f.count > 0
    ensures iTrunk in f.pages && Drew(f, chain, usableSize, true, nearby, nearby, Overdrawn(f, iTrunk), rest)
  {
    var g := Overdrawn(f, iTrunk);
    forall c ensures !Valid(g, c, usableSize) { StaleBreaks(f, chain, usableSize, i, g, c); }
    if StaleAt(f, chain, nearby, 0) { FirstSeen(f, chain, usableSize); }
  }

  lemma NotHere(f: Free, chain: seq<Trunk>, usableSize: nat, nearby: Pgno, i: nat, prev: Pgno, iTrunk: Pgno, closest: nat)
    requires Valid(f, chain, usableSize) && Searching(f, chain, true, nearby, i, prev, iTrunk) && nearby != iTrunk && nearby > 0
    requires iTrunk in f.pages && closest < |f.pages[iTrunk].slots| && f.pages[iTrunk].k <= |f.pages[iTrunk].slots|
    requires f.pages[iTrunk].slots[closest] != nearby && (closest < f.pages[iTrunk].k || closest == 0)
    requires var p := f.pages[iTrunk]; forall j | 0 <= j < p.k :: Distance(p.slots[closest], nearby) <= Distance(p.slots[j], nearby)
    ensures nearby !in chain[i].leaves && !StaleAt(f, chain, nearby, i)
  {
    TrunkSeen(f, chain, usableSize, i);
    var p := f.pages[iTrunk];
    forall j | 0 <= j < |chain[i].leaves| ensures chain[i].leaves[j] != nearby {
      assert Distance(p.slots[closest], nearby) <= Distance(p.slots[j], nearby);
    }
  }

  /** The end of the loop: a trunk, or a leaf of one, is taken. */
  method TakeHere(f: Free, nearby: Pgno, searchList: bool, usableSize: nat, ghost chain: seq<Trunk>, ghost i: nat,
                  prev: Pgno, iTrunk: Pgno, isTrunk: bool, closest: nat)
    returns (x: Pgno, g: Free, ghost rest: seq<Trunk>)
    requires Valid(f, chain, usableSize) && usableSize <= 32768 && f.count > 0
    requires Searching(f, chain, searchList, nearby, i, prev, iTrunk)
    requires iTrunk in f.pages && f.pages[iTrunk].k == |chain[i].leaves|
    requires if isTrunk then if searchList then nearby == iTrunk else f.pages[iTrunk].k == 0
      else closest < |f.pages[iTrunk].slots| && (closest < |chain[i].leaves| ==> f.pages[iTrunk].slots[closest] == chain[i].leaves[closest])
    requires !isTrunk ==> (searchList ==> f.pages[iTrunk].slots[closest] == nearby && iTrunk != nearby) && (closest < |chain[i].leaves| || closest == 0)
    requires !isTrunk && !searchList ==> chain[i].leaves != [] && if nearby == 0 then closest == 0 else ClosestIs(chain[i].leaves, closest, nearby)
    ensures Drew(f, chain, usableSize, searchList, nearby, x, g, rest)
  {
    if isTrunk {
      TakeTrunkHere(f, chain, usableSize, searchList, nearby, i, prev, iTrunk);
      return iTrunk, TakeTrunk(f, prev, iTrunk), TrunkTaken(chain, i);
    }
    var trunk := f.pages[iTrunk];
    x := trunk.slots[closest];
    if trunk.k == 0 {
      assert StaleAt(f, chain, nearby, i);
      StaleHere(f, chain, usableSize, nearby, i, prev, iTrunk, chain);
      return x, Free(f.first, f.count - 1, f.pages[iTrunk := trunk.(k := U32 - 1)]), chain;
    }
    TakeLeafHere(f, chain, usableSize, searchList, nearby, i, prev, iTrunk, closest);
    return x, Free(f.first, f.count - 1, f.pages[iTrunk := PageWithout(trunk, closest)]), LeafTaken(chain, i, closest);
  }

  /** The loop of allocateBtreePage on a list that is not empty.  An exact search
      takes the page looked for; but if on the way there is an empty trunk with
      the number as an old entry, the list is broken. */
  method TakeFromList(f: Free, nearby: Pgno, searchList: bool, usableSize: nat, ghost chain: seq<Trunk>)
    returns (x: Pgno, g: Free, ghost rest: seq<Trunk>)
    requires Valid(f, chain, usableSize) && usableSize <= 32768 && f.count > 0
    requires searchList ==> nearby in Pages(chain) && nearby > 0
    ensures Drew(f, chain, usableSize, searchList, nearby, x, g, rest)
  {
    FirstTrunk(f, chain, usableSize);
    var prev: Pgno, iTrunk := 0, f.first;
    ghost var i: nat := 0;
    assert chain[..0] == [];
    while true
      invariant Searching(f, chain, searchList, nearby, i, prev, iTrunk)
      decreases |chain| - i
    {
      TrunkSeen(f, chain, usableSize, i);
      var trunk := f.pages[iTrunk];
      if (trunk.k == 0 && !searchList) || (searchList && nearby == iTrunk) {
        x, g, rest := TakeHere(f, nearby, searchList, usableSize, chain, i, prev, iTrunk, true, 0);
        return;
      }
      var closest := FindClosest(trunk.slots, trunk.k, nearby);
      if !searchList || trunk.slots[closest] == nearby {
        x, g, rest := TakeHere(f, nearby, searchList, usableSize, chain, i, prev, iTrunk, false, closest);
        return;
      }
      NotHere(f, chain, usableSize, nearby, i, prev, iTrunk, closest);
      SearchOn(f, chain, usableSize, nearby, i, prev, iTrunk);
      prev, iTrunk, i := iTrunk, trunk.next, i + 1;
    }
  }

  /** That an old entry misleads a search can happen: free a page whose bytes hold
      the number of a free page where the first leaf would go, while the first
      trunk is full. */
  lemma StaleCanHappen(f: Free, chain: seq<Trunk>, usableSize: nat, p: Pgno)
    requires Valid(f, chain, usableSize) && p > 1 && p in f.pages && p !in Pages(chain) && |f.pages[p].slots| == usableSize / 4 - 2
    requires chain != [] && |chain[0].leaves| == Capacity(usableSize) && f.pages[p].slots[0] in Pages(chain)
    ensures f.count > 0 ==> f.first in f.pages && f.pages[f.first].k < |f.pages[f.first].slots|
    ensures var capacity := Capacity(usableSize);
      Stale(FreePageBytes(f, p, capacity), Freed(chain, p, capacity), f.pages[p].slots[0])
  {
    FirstTrunk(f, chain, usableSize);
    var g, r := FreePageBytes(f, p, Capacity(usableSize)), Freed(chain, p, Capacity(usableSize));
    assert r[0] == Trunk(p, []) && r[..0] == [];
    assert StaleAt(g, r, f.pages[p].slots[0], 0);
  }

  class BtShared {
    const usableSize: nat
    var f: Free
    ghost var chain: seq<Trunk>

    ghost predicate Sound()
      reads this
    {
      Valid(f, chain, usableSize) && usableSize <= 32768
    }

    /** freePage: exactly this page joins the list. */
    method FreePage(p: Pgno)
      requires Sound() && p > 1 && p in f.pages && p !in Pages(chain) && |f.pages[p].slots| == usableSize / 4 - 2
      modifies this
      ensures Sound() && Pages(chain) == old(Pages(chain)) + multiset{p} && f.count == old(f.count) + 1
      ensures chain == Freed(old(chain), p, Capacity(usableSize))
    {
      FreePageValid(f, chain, usableSize, p);
      FreedPages(chain, p, Capacity(usableSize));
      var g := PutOnList(f, p, usableSize);
      chain := Freed(chain, p, Capacity(usableSize));
      f := g;
    }

    /** allocateBtreePage when the list is not empty: exactly the page it returns
        leaves the list. */
    method Allocate(nearby: Pgno, searchList: bool) returns (x: Pgno)
      requires Sound() && f.count > 0 && (searchList ==> nearby > 0 && nearby in Pages(chain) && !Stale(f, chain, nearby))
      modifies this
      ensures Sound() && x in old(Pages(chain)) && Pages(chain) == old(Pages(chain)) - multiset{x} && f.count == old(f.count) - 1
      ensures if searchList then x == nearby else Nearest(old(chain), x, nearby)
    {
      ghost var rest;
      var g;
      x, g, rest := TakeFromList(f, nearby, searchList, usableSize, chain);
      chain := rest;
      f := g;
    }
  }
}
