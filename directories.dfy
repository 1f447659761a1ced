/** The directory tree that crawl_folder walks.

    `opendir` either fails (yields NULL) or yields a stream of entries that
    `readdir` returns one by one in a platform-chosen order.  The model takes
    that listing as given: a node is either a folder that cannot be opened or a
    directory whose listing is an ordered sequence of named entries, each
    carrying the node that opening its name yields.  The listing may contain
    the pseudo-entries "." and ".." like the real one does; what they
    would open is irrelevant, because the crawl skips them by name.
 */
module Directories {

  /** What `opendir` yields for one folder name. */
  datatype Node = Unopenable | Directory(entries: seq<Entry>)

  /** One `readdir` result: the bare entry name (`d_name`) and what opening that name yields. */
  datatype Entry = Entry(name: string, node: Node)

  /** The pseudo-entries the crawl skips (the two `strcmp` tests). */
  predicate IsDotName(name: string) {
    name == "." || name == ".."
  }

  /** True when the listing of `n` holds nothing but pseudo-entries, or `n` cannot be opened. */
  predicate HasNoRealEntries(n: Node) {
    match n
    case Unopenable => true
    case Directory(entries) => forall k :: 0 <= k < |entries| ==> IsDotName(entries[k].name)
  }
}
