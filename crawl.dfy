/** crawl_folder: the recursive walk that appends every entry name, in post-order. */
module Crawling {
  import opened Directories
  import opened PathList

  /** The names a crawl of `n` appends, in order.  An unopenable folder
      contributes nothing. */
  function Crawl(n: Node): seq<string>
    decreases n
  {
    match n
    case Unopenable => []
    case Directory(entries) => CrawlEntries(entries)
  }

  /** The names appended while iterating over the listing `es`: for each entry
      in turn, nothing for "." and "..", otherwise the crawl of the entry
      followed by the entry's own name. */
  function CrawlEntries(es: seq<Entry>): seq<string>
    decreases es
  {
    if es == [] then []
    else
      var m := |es| - 1;
      CrawlEntries(es[..m]) + EntryOutput(es[m])
  }

  /** What one loop iteration appends for the entry `e`. */
  function EntryOutput(e: Entry): seq<string>
    decreases e
  {
    if IsDotName(e.name) then [] else Crawl(e.node) + [e.name]
  }

  /** Iterating over two parts of a listing one after the other appends what
      each part appends, in listing order. */
  lemma {:induction false} CrawlEntriesConcat(a: seq<Entry>, b: seq<Entry>)
    ensures CrawlEntries(a + b) == CrawlEntries(a) + CrawlEntries(b)
    decreases |b|
  {
    if b == [] {
      assert a + b == a;
    } else {
      var m := |b| - 1;
      assert (a + b)[..|a + b| - 1] == a + b[..m];
      assert (a + b)[|a + b| - 1] == b[m];
      CrawlEntriesConcat(a, b[..m]);
    }
  }

  /** Post-order, stated per child: for every real child at listing position
      `i`, everything the crawl of that child appends comes immediately before
      the child's own name, preceded by what the earlier children produce and
      followed by what the later children produce. */
  lemma {:induction false} ChildBlock(es: seq<Entry>, i: nat)
    requires i < |es|
    requires !IsDotName(es[i].name)
    ensures CrawlEntries(es) ==
              CrawlEntries(es[..i]) + Crawl(es[i].node) + [es[i].name] + CrawlEntries(es[i + 1..])
  {
    assert es == es[..i] + ([es[i]] + es[i + 1..]);
    CrawlEntriesConcat(es[..i], [es[i]] + es[i + 1..]);
    CrawlEntriesConcat([es[i]], es[i + 1..]);
    assert [es[i]][..0] == [];
  }

  /** A skipped pseudo-entry contributes nothing, wherever it stands. */
  lemma {:induction false} DotEntrySkipped(es: seq<Entry>, i: nat)
    requires i < |es|
    requires IsDotName(es[i].name)
    ensures CrawlEntries(es) == CrawlEntries(es[..i]) + CrawlEntries(es[i + 1..])
  {
    assert es == es[..i] + ([es[i]] + es[i + 1..]);
    CrawlEntriesConcat(es[..i], [es[i]] + es[i + 1..]);
    CrawlEntriesConcat([es[i]], es[i + 1..]);
    assert [es[i]][..0] == [];
  }

  /** The crawl never appends "." or "..". */
  lemma {:induction false} CrawlHasNoDotNames(n: Node)
    ensures forall k :: 0 <= k < |Crawl(n)| ==> !IsDotName(Crawl(n)[k])
    decreases n
  {
    match n
    case Unopenable =>
    case Directory(entries) => CrawlEntriesHasNoDotNames(entries);
  }

  lemma {:induction false} CrawlEntriesHasNoDotNames(es: seq<Entry>)
    ensures forall k :: 0 <= k < |CrawlEntries(es)| ==> !IsDotName(CrawlEntries(es)[k])
    decreases es
  {
    if es != [] {
      var m := |es| - 1;
      CrawlEntriesHasNoDotNames(es[..m]);
      if !IsDotName(es[m].name) {
        CrawlHasNoDotNames(es[m].node);
        var own := Crawl(es[m].node) + [es[m].name];
        assert forall k :: 0 <= k < |own| ==> !IsDotName(own[k]) by {
          forall k | 0 <= k < |own| ensures !IsDotName(own[k]) {
            if k < |Crawl(es[m].node)| {
              assert own[k] == Crawl(es[m].node)[k];
            }
          }
        }
      }
    }
  }

  /** The crawl appends nothing exactly when the folder cannot be opened or its
      listing holds only "." and "..": every other entry, file or directory,
      appends at least its own name. */
  lemma {:induction false} CrawlEmptyIff(n: Node)
    ensures Crawl(n) == [] <==> HasNoRealEntries(n)
  {
    match n
    case Unopenable =>
    case Directory(entries) => CrawlEntriesEmptyIff(entries);
  }

  lemma {:induction false} CrawlEntriesEmptyIff(es: seq<Entry>)
    ensures CrawlEntries(es) == [] <==> forall k :: 0 <= k < |es| ==> IsDotName(es[k].name)
    decreases |es|
  {
    if es != [] {
      var m := |es| - 1;
      CrawlEntriesEmptyIff(es[..m]);
      assert forall k :: 0 <= k < m ==> es[..m][k] == es[k];
      if !IsDotName(es[m].name) {
        assert |EntryOutput(es[m])| > 0;
      }
    }
  }

  /** A listing of ".", ".." and `sub`, where opening the bare name `sub`
      yields a listing of just `a.txt`: `a.txt` is appended before `sub`, and
      `sub` itself is appended too.  Since the code opens `sub` relative to the
      working directory, this is the crawl of `sub/a.txt` when the crawled
      folder is the working directory. */
  lemma NestedFileComesFirst()
    ensures Crawl(Directory([Entry(".", Unopenable), Entry("..", Unopenable),
                             Entry("sub", Directory([Entry("a.txt", Unopenable)]))]))
            == ["a.txt", "sub"]
  {
    var sub := Directory([Entry("a.txt", Unopenable)]);
    var es := [Entry(".", Unopenable), Entry("..", Unopenable), Entry("sub", sub)];
    assert [Entry("a.txt", Unopenable)][..0] == [];
    assert Crawl(sub) == ["a.txt"];
    assert es[..2][..1][..0] == [];
    assert CrawlEntries(es[..2]) == [] by {
      assert CrawlEntries(es[..2][..1]) == [];
    }
    assert CrawlEntries(es) == CrawlEntries(es[..2]) + EntryOutput(es[2]);
  }

  /** crawl_folder over an already-opened folder: for each listing entry in
      `readdir` order, skip "." and "..", otherwise crawl the entry (the
      source recurses on its name) and then append its name to the shared
      list.  The list after the crawl is the list before it extended by
      exactly `Crawl(folder)`, so an unopenable folder leaves it as it was. */
  method CrawlFolder(list: FilePathList, folder: Node)
    requires list.Valid()
    modifies list.Repr
    ensures list.Valid() && fresh(list.Repr - old(list.Repr))
    ensures list.Names == old(list.Names) + Crawl(folder)
    decreases folder
  {
    if folder.Unopenable? {
      return;
    }
    var entries := folder.entries;
    var i := 0;
    while i < |entries|
      invariant 0 <= i <= |entries|
      invariant list.Valid() && fresh(list.Repr - old(list.Repr))
      invariant list.Names == old(list.Names) + CrawlEntries(entries[..i])
    {
      var entry := entries[i];
      assert entries[..i + 1][..i] == entries[..i];
      if IsDotName(entry.name) {
        i := i + 1;
        continue;
      }
      CrawlFolder(list, entry.node);
      list.Append(entry.name);
      i := i + 1;
    }
    assert entries[..i] == entries;
  }
}
