/** deflate_folder: crawl the input folder, fail when nothing was found,
    otherwise list what was found. */
module Deflation {
  import opened Directories
  import opened PathList
  import opened Crawling

  /** The two return codes. */
  const Success: int := 1
  const Failure: int := 0

  /** deflate_folder over the node that opening `folder` yields.  The result is
      `Failure` exactly when the crawl found no entry, which happens exactly
      when the folder cannot be opened or lists only "." and "..".  `printed`
      holds the names the success path hands to `INFO`, one per line in crawl
      order, written out as they stand (what `printf("%s\n", file)` would
      print; the code passes each name as the format itself, see
      `PrintfWithoutArguments`); the failure path hands over none of them.
      `outputFile` plays no part in the result: nothing is written to it. */
  method DeflateFolder(folder: Node, outputFile: string) returns (status: int, printed: seq<string>)
    ensures status == Failure <==> Crawl(folder) == []
    ensures status == Failure <==> HasNoRealEntries(folder)
    ensures status == Success || status == Failure
    ensures printed == if status == Success then Crawl(folder) else []
  {
    var list := new FilePathList();
    CrawlFolder(list, folder);
    CrawlEmptyIff(folder);
    printed := [];
    if list.count == 0 {
      return Failure, printed;
    }
    var i := 0;
    while i < list.count
      invariant 0 <= i <= list.count
      invariant printed == list.Names[..i]
    {
      printed := printed + [list.files[i]];
      i := i + 1;
    }
    assert list.Names[..i] == list.Names;
    return Success, printed;
  }

  /** What `printf(format)` writes when it is given no further arguments, as
      `INFO(file)` calls it: "%%" writes one '%', any other '%' starts a
      conversion whose argument is missing, which is undefined behaviour. */
  datatype PrintfOutcome = Printed(text: string) | Undefined

  function PrintfWithoutArguments(format: string): PrintfOutcome
    decreases |format|
  {
    if format == [] then Printed([])
    else if format[0] != '%' then
      match PrintfWithoutArguments(format[1..])
      case Printed(rest) => Printed([format[0]] + rest)
      case Undefined => Undefined
    else if |format| >= 2 && format[1] == '%' then
      match PrintfWithoutArguments(format[2..])
      case Printed(rest) => Printed(['%'] + rest)
      case Undefined => Undefined
    else Undefined
  }

  /** A name without '%' is printed as it stands even when it is used as the
      format, so the listing `DeflateFolder` returns is what the code prints
      for such names. */
  lemma {:induction false} NameWithoutPercentPrintedVerbatim(name: string)
    requires forall k :: 0 <= k < |name| ==> name[k] != '%'
    ensures PrintfWithoutArguments(name) == Printed(name)
    decreases |name|
  {
    if name != [] {
      NameWithoutPercentPrintedVerbatim(name[1..]);
      assert name == [name[0]] + name[1..];
    }
  }

  /** A printed format is never longer than the format itself: each ordinary
      character writes itself and each "%%" writes one '%'. */
  lemma {:induction false} PrintedShorter(format: string)
    ensures PrintfWithoutArguments(format).Printed? ==> |PrintfWithoutArguments(format).text| <= |format|
    decreases |format|
  {
    if format != [] {
      if format[0] != '%' {
        PrintedShorter(format[1..]);
      } else if |format| >= 2 && format[1] == '%' {
        PrintedShorter(format[2..]);
      }
    }
  }

  /** The converse of `NameWithoutPercentPrintedVerbatim`: a name holding a '%'
      is never printed as it stands, either because a "%%" shrinks to one '%'
      or because the call is undefined. */
  lemma {:induction false} PercentNameNotVerbatim(name: string)
    requires exists k :: 0 <= k < |name| && name[k] == '%'
    ensures PrintfWithoutArguments(name) != Printed(name)
    decreases |name|
  {
    var k :| 0 <= k < |name| && name[k] == '%';
    if name[0] != '%' {
      assert name[1..][k - 1] == '%';
      PercentNameNotVerbatim(name[1..]);
      match PrintfWithoutArguments(name[1..])
      case Printed(rest) =>
        assert PrintfWithoutArguments(name) == Printed([name[0]] + rest);
        assert ([name[0]] + rest)[1..] == rest;
      case Undefined =>
    } else if |name| >= 2 && name[1] == '%' {
      PrintedShorter(name[2..]);
    }
  }

  /** A file named "a%%b" is printed as "a%b", and one named "%s" makes the
      call undefined. */
  lemma PercentNameMisprinted()
    ensures PrintfWithoutArguments("a%%b") == Printed("a%b") && "a%b" != "a%%b"
    ensures PrintfWithoutArguments("%s") == Undefined
  {
    assert "a%%b"[1..] == "%%b" && "%%b"[2..] == "b" && "b"[1..] == [];
    assert "%s"[0] == '%' && "%s"[1] != '%';
  }
}
