/**
 * `find_downloads_in_folder` (src/downloads.rs): which files of a download folder are
 * recorded with the URL they came from, and in which order. Listing the folder, reading the
 * where-froms extended attribute with its plist, parsing URLs and the `is_match` closure are
 * inputs; URLs are of an arbitrary type `U`.
 */
module Downloads {
  import opened Outcomes
  import opened Text

  /** What reading `com.apple.metadata:kMDItemWhereFroms` and decoding it as a plist give. */
  datatype WhereFroms =
    | Unreadable                    // `xattr::get` failed: the entry is skipped
    | Absent                        // no such attribute: the entry is skipped
    | Undecodable                   // not a plist list of strings: the whole scan fails
    | Strings(values: seq<string>)  // the stored strings, in stored order

  /** One item yielded by `read_dir`: an error, or an entry with its file name. */
  datatype DirItem = Unlisted | Entry(name: string, whereFroms: WhereFroms)

  /** A recorded download: the file's path and its source URL. */
  datatype Download<U> = Download(path: string, source: U)

  // ---------------------------------------------------------------------------
  // The URL chosen for one entry
  // ---------------------------------------------------------------------------

  /** A stored string that parses as a URL which `is_match` accepts for the entry's path. */
  predicate Usable<U>(value: string, parse: string -> Option<U>, isMatch: (U, string) -> bool, path: string) {
    parse(value).Some? && isMatch(parse(value).value, path)
  }

  /**
   * `filter_map(Url::parse).filter(is_match).next()`: the first stored string, in stored order,
   * that parses and matches; unparseable strings are passed over.
   */
  function FirstSource<U>(values: seq<string>, parse: string -> Option<U>, isMatch: (U, string) -> bool,
                          path: string): (r: Option<U>)
    ensures r.None? ==> forall i | 0 <= i < |values| :: !Usable(values[i], parse, isMatch, path)
    ensures r.Some? ==> exists i | 0 <= i < |values| ::
      Usable(values[i], parse, isMatch, path) && parse(values[i]) == r
      && forall j | 0 <= j < i :: !Usable(values[j], parse, isMatch, path)
  {
    if values == [] then None
    else if Usable(values[0], parse, isMatch, path) then parse(values[0])
    else
      var r := FirstSource(values[1..], parse, isMatch, path);
      assert forall i | 1 <= i < |values| :: values[i] == values[1..][i - 1];
      r
  }

  /** The source recorded for an item: its first usable string, when it has stored strings. */
  function Source<U>(dir: string, item: DirItem, parse: string -> Option<U>, isMatch: (U, string) -> bool): Option<U> {
    if item.Entry? && item.whereFroms.Strings?
    then FirstSource(item.whereFroms.values, parse, isMatch, JoinPath(dir, item.name))
    else None
  }

  /** An item that aborts the scan: a `read_dir` error or an attribute that does not decode. */
  predicate Aborts(item: DirItem) {
    item.Unlisted? || item.whereFroms.Undecodable?
  }

  /** The error an aborting item propagates: the `read_dir` I/O error or the decode error. */
  function AbortError(item: DirItem): Error {
    if item.Unlisted? then Io else Decode
  }

  // ---------------------------------------------------------------------------
  // The loop over the folder
  // ---------------------------------------------------------------------------

  /** The records the loop collects, in `read_dir` order, or the error that stopped it. */
  function Scan<U>(dir: string, items: seq<DirItem>, parse: string -> Option<U>,
                   isMatch: (U, string) -> bool): Result<seq<Download<U>>>
  {
    if items == [] then Ok([])
    else
      var init := Scan(dir, items[..|items| - 1], parse, isMatch);
      var item := items[|items| - 1];
      if init.Err? then init
      else if Aborts(item) then Err(AbortError(item))
      else if Source(dir, item, parse, isMatch).Some?
      then Ok(init.value + [Download(JoinPath(dir, item.name), Source(dir, item, parse, isMatch).value)])
      else init
  }

  // ---------------------------------------------------------------------------
  // The sort by file name
  // ---------------------------------------------------------------------------

  /** Ordering of file names: lexicographic by code point, as `OsString` compares bytes. */
  predicate NameLe(a: string, b: string) {
    a == [] || (b != [] && (a[0] < b[0] || (a[0] == b[0] && NameLe(a[1..], b[1..]))))
  }

  function Key<U>(d: Download<U>): string {
    FileName(d.path)
  }

  predicate SortedByName<U>(s: seq<Download<U>>) {
    forall i, j | 0 <= i < j < |s| :: NameLe(Key(s[i]), Key(s[j]))
  }

  /** Inserts `d` after every record whose name is not greater: equal names keep their order. */
  function InsertByName<U>(sorted: seq<Download<U>>, d: Download<U>): (r: seq<Download<U>>)
    ensures multiset(r) == multiset(sorted) + multiset{d}
  {
    if sorted == [] then [d]
    else
      var last := sorted[|sorted| - 1];
      if NameLe(Key(last), Key(d)) then sorted + [d]
      else
        var init := sorted[..|sorted| - 1];
        assert sorted == init + [last];
        InsertByName(init, d) + [last]
  }

  /** `sort_by_cached_key` by file name, which is stable. */
  function SortByName<U>(s: seq<Download<U>>): (r: seq<Download<U>>)
    ensures multiset(r) == multiset(s)
  {
    if s == [] then []
    else
      assert s == s[..|s| - 1] + [s[|s| - 1]];
      InsertByName(SortByName(s[..|s| - 1]), s[|s| - 1])
  }

  /**
   * `find_downloads_in_folder`: a failing `read_dir` fails the scan; otherwise each entry is
   * recorded with its first usable URL, and the records are sorted by file name.
   */
  method FindDownloadsInFolder<U>(dir: string, listing: Option<seq<DirItem>>, parse: string -> Option<U>,
                                  isMatch: (U, string) -> bool)
    returns (r: Result<seq<Download<U>>>)
    ensures listing.None? ==> r == Err(Io)
    ensures listing.Some? && Scan(dir, listing.value, parse, isMatch).Err? ==>
      r == Err(Scan(dir, listing.value, parse, isMatch).error)
    ensures listing.Some? && Scan(dir, listing.value, parse, isMatch).Ok? ==>
      r == Ok(SortByName(Scan(dir, listing.value, parse, isMatch).value))
  {
    if listing.None? {
      return Err(Io);
    }
    var items := listing.value;
    var matches: seq<Download<U>> := [];
    for i := 0 to |items|
      invariant Scan(dir, items[..i], parse, isMatch) == Ok(matches)
    {
      assert items[..i + 1][..i] == items[..i];
      assert items[..i + 1] + items[i + 1..] == items;
      var item := items[i];
      if item.Unlisted? {
        ScanKeepsError(dir, items[..i + 1], items[i + 1..], parse, isMatch);
        return Err(Io);
      }
      var path := JoinPath(dir, item.name);
      match item.whereFroms {
        case Undecodable =>
          ScanKeepsError(dir, items[..i + 1], items[i + 1..], parse, isMatch);
          return Err(Decode);
        case Strings(values) =>
          var source := FirstSource(values, parse, isMatch, path);
          if source.Some? {
            matches := matches + [Download(path, source.value)];
          }
        case Unreadable =>
        case Absent =>
      }
    }
    assert items[..|items|] == items;
    matches := SortByName(matches);
    return Ok(matches);
  }

  // ---------------------------------------------------------------------------
  // Properties of the scan
  // ---------------------------------------------------------------------------

  /** The first error stops the scan: nothing after it is looked at. */
  lemma {:induction false} ScanKeepsError<U>(dir: string, a: seq<DirItem>, b: seq<DirItem>,
                                             parse: string -> Option<U>, isMatch: (U, string) -> bool)
    requires Scan(dir, a, parse, isMatch).Err?
    ensures Scan(dir, a + b, parse, isMatch) == Scan(dir, a, parse, isMatch)
    decreases |b|
  {
    if b == [] {
      assert a + b == a;
    } else {
      var b' := b[..|b| - 1];
      assert (a + b)[..|a + b| - 1] == a + b';
      ScanKeepsError(dir, a, b', parse, isMatch);
    }
  }

  /**
   * The scan fails exactly when some item aborts it, and then with the error of the first
   * aborting item: I/O for a `read_dir` error, a decode error for an undecodable attribute.
   */
  lemma {:induction false} ScanFailsIff<U>(dir: string, items: seq<DirItem>, parse: string -> Option<U>,
                                           isMatch: (U, string) -> bool)
    ensures Scan(dir, items, parse, isMatch).Err? <==> exists i | 0 <= i < |items| :: Aborts(items[i])
    ensures Scan(dir, items, parse, isMatch).Err? ==> exists i | 0 <= i < |items| ::
      && Aborts(items[i]) && (forall j | 0 <= j < i :: !Aborts(items[j]))
      && Scan(dir, items, parse, isMatch).error == AbortError(items[i])
    decreases |items|
  {
    if items != [] {
      var init := items[..|items| - 1];
      ScanFailsIff(dir, init, parse, isMatch);
      assert forall j | 0 <= j < |init| :: items[j] == init[j];
      if exists i | 0 <= i < |init| :: Aborts(init[i]) {
        var i :| 0 <= i < |init| && Aborts(init[i]);
        assert items[i] == init[i];
      }
      if exists i | 0 <= i < |items| :: Aborts(items[i]) {
        var i :| 0 <= i < |items| && Aborts(items[i]);
        if i < |init| {
          assert init[i] == items[i];
        }
      }
    }
  }

  /**
   * The records are exactly the entries with a usable URL: each record is the joined path of
   * one entry with that entry's first usable URL, and every such entry is recorded. Entries
   * whose attribute is unreadable or absent, or has no usable URL, are skipped.
   */
  lemma {:induction false} ScanExact<U>(dir: string, items: seq<DirItem>, parse: string -> Option<U>,
                                        isMatch: (U, string) -> bool)
    requires Scan(dir, items, parse, isMatch).Ok?
    ensures var found := Scan(dir, items, parse, isMatch).value;
      && |found| <= |items|
      && (forall k | 0 <= k < |found| :: exists i | 0 <= i < |items| ::
            items[i].Entry? && found[k].path == JoinPath(dir, items[i].name)
            && Source(dir, items[i], parse, isMatch) == Some(found[k].source))
      && (forall i | 0 <= i < |items| && Source(dir, items[i], parse, isMatch).Some? ::
            Download(JoinPath(dir, items[i].name), Source(dir, items[i], parse, isMatch).value) in found)
    decreases |items|
  {
    if items != [] {
      var init := items[..|items| - 1];
      var item := items[|items| - 1];
      ScanExact(dir, init, parse, isMatch);
      forall i | 0 <= i < |init| ensures items[i] == init[i] { }
    }
  }

  /** Joining a name onto a folder keeps the name recoverable. */
  lemma JoinPathInjective(dir: string, a: string, b: string)
    requires JoinPath(dir, a) == JoinPath(dir, b)
    ensures a == b
  {
    var p := if dir == [] || dir[|dir| - 1] == '/' then dir else dir + "/";
    assert JoinPath(dir, a) == p + a && JoinPath(dir, b) == p + b;
    assert a == (p + a)[|p|..];
    assert b == (p + b)[|p|..];
  }

  /**
   * Each entry contributes at most one record: when the folder's names are distinct, no two
   * records share a path.
   */
  lemma {:induction false} OneRecordPerEntry<U>(dir: string, items: seq<DirItem>, parse: string -> Option<U>,
                                                isMatch: (U, string) -> bool)
    requires Scan(dir, items, parse, isMatch).Ok?
    requires forall i, j | 0 <= i < j < |items| && items[i].Entry? && items[j].Entry? ::
      items[i].name != items[j].name
    ensures var found := Scan(dir, items, parse, isMatch).value;
      forall k, l | 0 <= k < l < |found| :: found[k].path != found[l].path
    decreases |items|
  {
    if items != [] {
      var init := items[..|items| - 1];
      var item := items[|items| - 1];
      forall i | 0 <= i < |init| ensures items[i] == init[i] { }
      OneRecordPerEntry(dir, init, parse, isMatch);
      ScanExact(dir, init, parse, isMatch);
      var before := Scan(dir, init, parse, isMatch).value;
      if Source(dir, item, parse, isMatch).Some? {
        var path := JoinPath(dir, item.name);
        forall k | 0 <= k < |before| ensures before[k].path != path {
          var i :| 0 <= i < |init| && init[i].Entry? && before[k].path == JoinPath(dir, init[i].name)
            && Source(dir, init[i], parse, isMatch) == Some(before[k].source);
          if before[k].path == path {
            JoinPathInjective(dir, init[i].name, item.name);
          }
        }
      }
    }
  }

  // ---------------------------------------------------------------------------
  // Properties of the sort
  // ---------------------------------------------------------------------------

  lemma {:induction false} NameLeReflexive(a: string)
    ensures NameLe(a, a)
    decreases |a|
  {
    if a != [] {
      NameLeReflexive(a[1..]);
    }
  }

  lemma {:induction false} NameLeTotal(a: string, b: string)
    ensures NameLe(a, b) || NameLe(b, a)
    decreases |a|
  {
    if a != [] && b != [] && a[0] == b[0] {
      NameLeTotal(a[1..], b[1..]);
    }
  }

  lemma {:induction false} NameLeAntisymmetric(a: string, b: string)
    requires NameLe(a, b) && NameLe(b, a)
    ensures a == b
    decreases |a|
  {
    if a != [] {
      NameLeAntisymmetric(a[1..], b[1..]);
      assert a == [a[0]] + a[1..] && b == [b[0]] + b[1..];
    }
  }

  lemma {:induction false} NameLeTransitive(a: string, b: string, c: string)
    requires NameLe(a, b) && NameLe(b, c)
    ensures NameLe(a, c)
    decreases |a|
  {
    if a != [] && a[0] == b[0] && b[0] == c[0] {
      NameLeTransitive(a[1..], b[1..], c[1..]);
    }
  }

  lemma {:induction false} InsertKeepsSorted<U>(sorted: seq<Download<U>>, d: Download<U>)
    requires SortedByName(sorted)
    ensures SortedByName(InsertByName(sorted, d))
    decreases |sorted|
  {
    if sorted != [] {
      var last := sorted[|sorted| - 1];
      var init := sorted[..|sorted| - 1];
      var r := InsertByName(sorted, d);
      if NameLe(Key(last), Key(d)) {
        forall i, j | 0 <= i < j < |r| ensures NameLe(Key(r[i]), Key(r[j])) {
          if j == |sorted| && i < |sorted| - 1 {
            NameLeTransitive(Key(r[i]), Key(last), Key(d));
          }
        }
      } else {
        InsertKeepsSorted(init, d);
        var front := InsertByName(init, d);
        NameLeTotal(Key(last), Key(d));
        forall i | 0 <= i < |front| ensures NameLe(Key(front[i]), Key(last)) {
          assert front[i] in multiset(init) + multiset{d};
          if front[i] != d {
            assert front[i] in init;
            var k :| 0 <= k < |init| && init[k] == front[i];
            assert sorted[k] == init[k];
          }
        }
        assert r == front + [last];
      }
    }
  }

  /** The result is ordered by file name. */
  lemma {:induction false} SortIsSorted<U>(s: seq<Download<U>>)
    ensures SortedByName(SortByName(s))
    decreases |s|
  {
    if s != [] {
      SortIsSorted(s[..|s| - 1]);
      InsertKeepsSorted(SortByName(s[..|s| - 1]), s[|s| - 1]);
    }
  }

  /** The records named `name`, in order. */
  function Named<U>(s: seq<Download<U>>, name: string): seq<Download<U>> {
    if s == [] then []
    else Named(s[..|s| - 1], name) + (if Key(s[|s| - 1]) == name then [s[|s| - 1]] else [])
  }

  lemma {:induction false} NamedAppend<U>(a: seq<Download<U>>, b: seq<Download<U>>, name: string)
    ensures Named(a + b, name) == Named(a, name) + Named(b, name)
    decreases |b|
  {
    if b == [] {
      assert a + b == a;
    } else {
      var b' := b[..|b| - 1];
      assert (a + b)[..|a + b| - 1] == a + b';
      assert (a + b)[|a + b| - 1] == b[|b| - 1];
      NamedAppend(a, b', name);
    }
  }

  lemma NamedSingle<U>(d: Download<U>, name: string)
    ensures Named([d], name) == if Key(d) == name then [d] else []
  {
    assert [d][..0] == [];
  }

  lemma {:induction false} InsertKeepsNamedOrder<U>(sorted: seq<Download<U>>, d: Download<U>, name: string)
    ensures Named(InsertByName(sorted, d), name) == Named(sorted, name) + Named([d], name)
    decreases |sorted|
  {
    if sorted == [] {
      NamedSingle(d, name);
    } else {
      var last := sorted[|sorted| - 1];
      var init := sorted[..|sorted| - 1];
      if NameLe(Key(last), Key(d)) {
        NamedAppend(sorted, [d], name);
      } else {
        var front := InsertByName(init, d);
        assert InsertByName(sorted, d) == front + [last];
        InsertKeepsNamedOrder(init, d, name);
        NamedAppend(front, [last], name);
        NamedSingle(d, name);
        NamedSingle(last, name);
        if Key(d) == name && Key(last) == name {
          NameLeReflexive(name);
        }
        SwapEmpty(Named(init, name), Named([d], name), Named([last], name));
      }
    }
  }

  lemma SwapEmpty<T>(a: seq<T>, x: seq<T>, y: seq<T>)
    requires x == [] || y == []
    ensures a + x + y == a + y + x
  {
    if x == [] {
      assert a + x == a;
    } else {
      assert a + y == a;
    }
  }

  /**
   * The sort is stable: for every file name, the records with that name appear in the order the
   * loop collected them.
   */
  lemma {:induction false} SortIsStable<U>(s: seq<Download<U>>, name: string)
    ensures Named(SortByName(s), name) == Named(s, name)
    decreases |s|
  {
    if s != [] {
      var init, last := s[..|s| - 1], s[|s| - 1];
      assert SortByName(s) == InsertByName(SortByName(init), last);
      SortIsStable(init, name);
      InsertKeepsNamedOrder(SortByName(init), last, name);
      NamedSingle(last, name);
    }
  }

  /**
   * The sort neither adds nor loses records, orders them by name, and keeps the collection order
   * of equal names; a sorted sequence with those properties is unique.
   */
  lemma SortSpecification<U>(s: seq<Download<U>>)
    ensures multiset(SortByName(s)) == multiset(s)
    ensures SortedByName(SortByName(s))
    ensures forall name :: Named(SortByName(s), name) == Named(s, name)
  {
    SortIsSorted(s);
    forall name ensures Named(SortByName(s), name) == Named(s, name) {
      SortIsStable(s, name);
    }
  }
}
