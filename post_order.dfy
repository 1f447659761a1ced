/** An independent description of what crawl_folder appends.

    An entry path is the sequence of listing positions followed from the
    crawled folder down to one real entry (never through "." or ".."); the
    crawl is meant to append the name at every entry path exactly once, in
    post-order.  Post-order is stated directly on paths by `Before`, and the
    lemmas below show that `Crawl` is the one enumeration with that shape. */
module PostOrder {
  import opened Directories
  import opened Crawling

  type Path = seq<nat>

  /** `p` leads from `n` to a real entry: every step picks an existing listing
      position whose entry is not "." or "..". */
  ghost predicate IsEntryPath(n: Node, p: Path)
    decreases |p|
  {
    n.Directory? && |p| > 0 && p[0] < |n.entries| && !IsDotName(n.entries[p[0]].name) &&
    (|p| > 1 ==> IsEntryPath(n.entries[p[0]].node, p[1..]))
  }

  /** The bare name of the entry that `p` leads to. */
  ghost function NameAt(n: Node, p: Path): string
    requires IsEntryPath(n, p)
    decreases |p|
  {
    if |p| == 1 then n.entries[p[0]].name else NameAt(n.entries[p[0]].node, p[1..])
  }

  /** The names at the paths `ps`, in the order of `ps`. */
  ghost function NamesAt(n: Node, ps: seq<Path>): (r: seq<string>)
    requires forall p :: p in ps ==> IsEntryPath(n, p)
    ensures |r| == |ps|
  {
    seq(|ps|, k requires 0 <= k < |ps| => NameAt(n, ps[k]))
  }

  /** Post-order on paths: `p` is visited strictly before `q` when `p` lies
      inside `q` (a proper extension of it), or when at the first position
      where they differ `p` takes the earlier listing entry. */
  predicate Before(p: Path, q: Path)
    decreases |p|
  {
    |p| > 0 && (|q| == 0 || p[0] < q[0] || (p[0] == q[0] && Before(p[1..], q[1..])))
  }

  ghost predicate SortedByBefore(ps: seq<Path>) {
    forall a, b :: 0 <= a < b < |ps| ==> Before(ps[a], ps[b])
  }

  // ---------------------------------------------------------------------------
  // Before is a strict total order

  lemma {:induction false} BeforeIrreflexive(p: Path)
    ensures !Before(p, p)
    decreases |p|
  {
    if |p| > 0 {
      BeforeIrreflexive(p[1..]);
    }
  }

  lemma {:induction false} BeforeTransitive(p: Path, q: Path, r: Path)
    requires Before(p, q) && Before(q, r)
    ensures Before(p, r)
    decreases |p|
  {
    if |r| > 0 && p[0] == q[0] && q[0] == r[0] {
      BeforeTransitive(p[1..], q[1..], r[1..]);
    }
  }

  lemma {:induction false} BeforeTotal(p: Path, q: Path)
    requires p != q
    ensures Before(p, q) || Before(q, p)
    decreases |p|
  {
    if |p| > 0 && |q| > 0 && p[0] == q[0] {
      assert p == [p[0]] + p[1..] && q == [q[0]] + q[1..];
      BeforeTotal(p[1..], q[1..]);
    }
  }

  /** A sequence sorted by `Before` never repeats a path. */
  lemma SortedHasNoDuplicates(ps: seq<Path>)
    requires SortedByBefore(ps)
    ensures forall a, b :: 0 <= a < b < |ps| ==> ps[a] != ps[b]
  {
    forall a, b | 0 <= a < b < |ps| ensures ps[a] != ps[b] {
      BeforeIrreflexive(ps[a]);
    }
  }

  lemma ElementIn(ps: seq<Path>, k: nat)
    requires k < |ps|
    ensures ps[k] in ps
  {
  }

  /** Two sequences sorted by `Before` that hold the same paths are equal. */
  lemma {:induction false} SortedUnique(xs: seq<Path>, ys: seq<Path>)
    requires SortedByBefore(xs) && SortedByBefore(ys)
    requires forall p :: p in xs <==> p in ys
    ensures xs == ys
    decreases |xs|
  {
    if xs == [] && ys != [] {
      ElementIn(ys, 0);
    } else if xs != [] && ys == [] {
      ElementIn(xs, 0);
    } else if xs != [] {
      var x, y := xs[0], ys[0];
      if x != y {
        assert y in xs;
        var j :| 0 <= j < |xs| && xs[j] == y;
        assert x in ys;
        var i :| 0 <= i < |ys| && ys[i] == x;
        assert Before(x, y) && Before(y, x);
        BeforeTransitive(x, y, x);
        BeforeIrreflexive(x);
      }
      SortedHasNoDuplicates(xs);
      SortedHasNoDuplicates(ys);
      forall p ensures p in xs[1..] <==> p in ys[1..] {
        if p in xs[1..] {
          var k :| 1 <= k < |xs| && xs[k] == p;
          assert p in ys && p != ys[0];
        }
        if p in ys[1..] {
          var k :| 1 <= k < |ys| && ys[k] == p;
          assert p in xs && p != xs[0];
        }
      }
      SortedUnique(xs[1..], ys[1..]);
      assert xs == [x] + xs[1..] && ys == [y] + ys[1..];
    }
  }

  // ---------------------------------------------------------------------------
  // The entry path of every name the crawl appends

  /** The entry path behind each name `Crawl(n)` appends, in the same order. */
  ghost function CrawlPaths(n: Node): seq<Path>
    decreases n
  {
    match n
    case Unopenable => []
    case Directory(entries) => CrawlPathsEntries(entries)
  }

  ghost function CrawlPathsEntries(es: seq<Entry>): seq<Path>
    decreases es
  {
    if es == [] then []
    else
      var m := |es| - 1;
      CrawlPathsEntries(es[..m]) + EntryPaths(m, es[m])
  }

  ghost function EntryPaths(i: nat, e: Entry): seq<Path>
    decreases e
  {
    if IsDotName(e.name) then [] else Prefixed(i, CrawlPaths(e.node)) + [[i]]
  }

  ghost function Prefixed(i: nat, ps: seq<Path>): (r: seq<Path>)
    ensures |r| == |ps| && forall k :: 0 <= k < |ps| ==> r[k] == [i] + ps[k]
  {
    seq(|ps|, k requires 0 <= k < |ps| => [i] + ps[k])
  }

  /** An entry path of a listing prefix is an entry path of the whole listing,
      leading to the same name. */
  lemma WidenListing(pre: seq<Entry>, es: seq<Entry>, p: Path)
    requires |pre| <= |es| && pre == es[..|pre|]
    requires IsEntryPath(Directory(pre), p)
    ensures IsEntryPath(Directory(es), p)
    ensures NameAt(Directory(es), p) == NameAt(Directory(pre), p)
  {
    assert pre[p[0]] == es[p[0]];
  }

  /** Conversely, an entry path of the whole listing that starts below `|pre|`
      is an entry path of the prefix. */
  lemma NarrowListing(pre: seq<Entry>, es: seq<Entry>, p: Path)
    requires |pre| <= |es| && pre == es[..|pre|]
    requires IsEntryPath(Directory(es), p) && p[0] < |pre|
    ensures IsEntryPath(Directory(pre), p)
  {
    assert pre[p[0]] == es[p[0]];
  }

  /** Stepping into the real entry at position `i` of a listing. */
  lemma StepInto(es: seq<Entry>, i: nat, q: Path)
    requires i < |es| && !IsDotName(es[i].name)
    requires IsEntryPath(es[i].node, q)
    ensures IsEntryPath(Directory(es), [i] + q)
    ensures NameAt(Directory(es), [i] + q) == NameAt(es[i].node, q)
  {
    assert ([i] + q)[1..] == q;
  }

  /** Every name the crawl appends is the name at its entry path. */
  lemma {:induction false} CrawlPathsNamed(n: Node)
    ensures |CrawlPaths(n)| == |Crawl(n)|
    ensures forall k :: 0 <= k < |Crawl(n)| ==>
              IsEntryPath(n, CrawlPaths(n)[k]) && NameAt(n, CrawlPaths(n)[k]) == Crawl(n)[k]
    decreases n
  {
    match n
    case Unopenable =>
    case Directory(entries) => CrawlPathsEntriesNamed(entries);
  }

  lemma {:induction false} CrawlPathsEntriesNamed(es: seq<Entry>)
    ensures |CrawlPathsEntries(es)| == |CrawlEntries(es)|
    ensures forall k :: 0 <= k < |CrawlEntries(es)| ==>
              IsEntryPath(Directory(es), CrawlPathsEntries(es)[k]) &&
              NameAt(Directory(es), CrawlPathsEntries(es)[k]) == CrawlEntries(es)[k]
    decreases es
  {
    if es != [] {
      var m := |es| - 1;
      var e := es[m];
      var ps, names := CrawlPathsEntries(es), CrawlEntries(es);
      var headPs, headNames := CrawlPathsEntries(es[..m]), CrawlEntries(es[..m]);
      assert ps == headPs + EntryPaths(m, e);
      assert names == headNames + EntryOutput(e);
      CrawlPathsEntriesNamed(es[..m]);
      forall k | 0 <= k < |headNames|
        ensures IsEntryPath(Directory(es), ps[k]) && NameAt(Directory(es), ps[k]) == names[k]
      {
        assert ps[k] == headPs[k] && names[k] == headNames[k];
        WidenListing(es[..m], es, headPs[k]);
      }
      if !IsDotName(e.name) {
        var sub, subNames := CrawlPaths(e.node), Crawl(e.node);
        CrawlPathsNamed(e.node);
        assert EntryPaths(m, e) == Prefixed(m, sub) + [[m]];
        assert EntryOutput(e) == subNames + [e.name];
        forall k | |headNames| <= k < |names|
          ensures IsEntryPath(Directory(es), ps[k]) && NameAt(Directory(es), ps[k]) == names[k]
        {
          var j := k - |headNames|;
          if j < |sub| {
            assert ps[k] == [m] + sub[j] && names[k] == subNames[j];
            StepInto(es, m, sub[j]);
          } else {
            assert ps[k] == [m] && names[k] == e.name;
          }
        }
      }
    }
  }

  /** Every entry path is among the crawl's paths. */
  lemma {:induction false} CrawlPathsComplete(n: Node, p: Path)
    requires IsEntryPath(n, p)
    ensures p in CrawlPaths(n)
    decreases n
  {
    CrawlPathsEntriesComplete(n.entries, p);
  }

  lemma {:induction false} CrawlPathsEntriesComplete(es: seq<Entry>, p: Path)
    requires IsEntryPath(Directory(es), p)
    ensures p in CrawlPathsEntries(es)
    decreases es
  {
    var m := |es| - 1;
    var e := es[m];
    var headPs := CrawlPathsEntries(es[..m]);
    if p[0] < m {
      NarrowListing(es[..m], es, p);
      CrawlPathsEntriesComplete(es[..m], p);
      var k :| 0 <= k < |headPs| && headPs[k] == p;
      assert CrawlPathsEntries(es)[k] == p;
    } else {
      var sub := CrawlPaths(e.node);
      var ps := headPs + Prefixed(m, sub) + [[m]];
      assert CrawlPathsEntries(es) == ps;
      if |p| == 1 {
        assert p == [m] == ps[|ps| - 1];
      } else {
        CrawlPathsComplete(e.node, p[1..]);
        var j :| 0 <= j < |sub| && sub[j] == p[1..];
        assert p == [m] + p[1..];
        assert ps[|headPs| + j] == p;
      }
    }
  }

  lemma SortedConcat(xs: seq<Path>, ys: seq<Path>)
    requires SortedByBefore(xs) && SortedByBefore(ys)
    requires forall a, b :: 0 <= a < |xs| && 0 <= b < |ys| ==> Before(xs[a], ys[b])
    ensures SortedByBefore(xs + ys)
  {
    var zs := xs + ys;
    forall a, b | 0 <= a < b < |zs| ensures Before(zs[a], zs[b]) {
      if b < |xs| {
        assert zs[a] == xs[a] && zs[b] == xs[b];
      } else if a < |xs| {
        assert zs[a] == xs[a] && zs[b] == ys[b - |xs|];
      } else {
        assert zs[a] == ys[a - |xs|] && zs[b] == ys[b - |xs|];
      }
    }
  }

  /** The crawl appends in post-order. */
  lemma {:induction false} CrawlPathsSorted(n: Node)
    ensures SortedByBefore(CrawlPaths(n))
    decreases n
  {
    match n
    case Unopenable =>
    case Directory(entries) => CrawlPathsEntriesSorted(entries);
  }

  lemma {:induction false} CrawlPathsEntriesSorted(es: seq<Entry>)
    ensures SortedByBefore(CrawlPathsEntries(es))
    decreases es
  {
    if es != [] {
      var m := |es| - 1;
      var e := es[m];
      var headPs := CrawlPathsEntries(es[..m]);
      CrawlPathsEntriesSorted(es[..m]);
      if !IsDotName(e.name) {
        var sub := CrawlPaths(e.node);
        CrawlPathsSorted(e.node);
        CrawlPathsNamed(e.node);
        CrawlPathsEntriesNamed(es[..m]);
        var own := Prefixed(m, sub);
        forall a, b | 0 <= a < b < |own| ensures Before(own[a], own[b]) {
          assert Before(sub[a], sub[b]);
          assert own[a][1..] == sub[a] && own[b][1..] == sub[b];
        }
        forall a | 0 <= a < |own| ensures Before(own[a], [m]) {
          assert IsEntryPath(e.node, sub[a]);
        }
        SortedConcat(own, [[m]]);
        forall a, b | 0 <= a < |headPs| && 0 <= b < |own + [[m]]|
          ensures Before(headPs[a], (own + [[m]])[b])
        {
          assert IsEntryPath(Directory(es[..m]), headPs[a]);
        }
        SortedConcat(headPs, own + [[m]]);
        assert CrawlPathsEntries(es) == headPs + (own + [[m]]);
      }
    }
  }

  // ---------------------------------------------------------------------------
  // The results

  /** The crawl appends the name at every entry path exactly once, in
      post-order, and appends nothing else. */
  lemma CrawlEnumeratesEntries(n: Node)
    ensures |CrawlPaths(n)| == |Crawl(n)|
    ensures forall k :: 0 <= k < |Crawl(n)| ==>
              IsEntryPath(n, CrawlPaths(n)[k]) && NameAt(n, CrawlPaths(n)[k]) == Crawl(n)[k]
    ensures forall p :: IsEntryPath(n, p) ==> p in CrawlPaths(n)
    ensures forall a, b :: 0 <= a < b < |CrawlPaths(n)| ==> CrawlPaths(n)[a] != CrawlPaths(n)[b]
    ensures SortedByBefore(CrawlPaths(n))
  {
    CrawlPathsNamed(n);
    forall p | IsEntryPath(n, p) ensures p in CrawlPaths(n) {
      CrawlPathsComplete(n, p);
    }
    CrawlPathsSorted(n);
    SortedHasNoDuplicates(CrawlPaths(n));
  }

  /** The crawl is determined by post-order alone: list the entry paths of
      `n`, each once, sorted by `Before`; the names at those paths are exactly
      what the crawl appends. */
  lemma CrawlIsPostOrder(n: Node, ps: seq<Path>)
    requires SortedByBefore(ps)
    requires forall p :: p in ps <==> IsEntryPath(n, p)
    ensures Crawl(n) == NamesAt(n, ps)
  {
    CrawlEnumeratesEntries(n);
    var cps := CrawlPaths(n);
    forall p ensures p in ps <==> p in cps {
      if p in cps {
        var k :| 0 <= k < |cps| && cps[k] == p;
      }
    }
    SortedUnique(ps, cps);
  }
}
