/** FilePathList: the append-only growable array of names that the crawl fills. */
module PathList {

  /** The struct `{ files, count, capacity }`.  `files` is null until the first
      append, as in a zero-initialised struct.  Unlike the original, the model
      backs `capacity` with real storage: `files.Length == capacity` whenever
      `files` is allocated (see module AppendAsWritten for the code as written). */
  class FilePathList {
    // public view: the names stored so far, in append order, and the objects in
    // use (the list itself and its current array; a replaced array drops out)
    ghost var Names: seq<string>
    ghost var Repr: set<object>

    var files: array?<string>
    var count: nat
    var capacity: nat

    /** The bookkeeping invariant the growth policy is meant to keep, and the
        tie between the stored names and the public view. */
    ghost predicate Valid()
      reads this, Repr
    {
      this in Repr &&
      (files == null ==> Repr == {this} && count == 0 && Names == []) &&
      (files != null ==>
         Repr == {this, files} && files.Length == capacity && 2 <= capacity && count <= capacity &&
         Names == files[..count])
    }

    /** `FilePathList list = { 0 };` */
    constructor ()
      ensures Valid() && fresh(Repr)
      ensures files == null && count == 0 && capacity == 0
      ensures Names == []
    {
      files := null;
      count := 0;
      capacity := 0;
      Names := [];
      Repr := {this};
    }

    /** filepathlist_append: store a copy of `name` at index `count` and bump
        `count`.  The first append allocates room for two names; an append
        that finds the array full doubles `capacity` and moves the names into
        a fresh array of that size.  Strings are values here, so the copy that
        `strdup` makes is implicit. */
    method Append(name: string)
      requires Valid()
      modifies Repr
      ensures Valid() && fresh(Repr - old(Repr))
      ensures count == old(count) + 1 && |Names| == count
      ensures Names == old(Names) + [name]
      ensures files != null && files[old(count)] == name
      ensures old(files) == null ==> capacity == 2 && fresh(files)
      ensures old(files) != null && old(count) == old(capacity) ==>
                capacity == 2 * old(capacity) && fresh(files)
      ensures old(files) != null && old(count) < old(capacity) ==>
                capacity == old(capacity) && files == old(files)
    {
      if files == null {
        capacity := 2;
        files := new string[capacity];
        Repr := {this, files};
      }
      if count == capacity {
        capacity := 2 * capacity;
        var grown := new string[capacity];
        forall k | 0 <= k < count {
          grown[k] := files[k];
        }
        files := grown;
        Repr := {this, files};
      }
      files[count] := name;
      count := count + 1;
      Names := Names + [name];
    }
  }
}
