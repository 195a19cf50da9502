/** The post repository: linear scans of the content directory. Both the
    listing and the link lookup read every markdown entry's front matter in
    enumeration order and give up on the first entry that fails. */
module Repository {
  import opened Results
  import opened FrontMatter

  /** The directory the posts live in; entry paths are this joined with a file name. */
  const ContentRoot: string := "blog/"

  /** One step of the directory enumeration. */
  datatype DirItem =
    | Entry(name: string, file: Option<string>)  // a file name and its text, `None` when it cannot be read
    | EntryError                                  // the enumeration itself failed here

  /** Index of the last occurrence of `c` in `s`. */
  function LastIndexOf(s: string, c: char): (r: Option<nat>)
    ensures r.Some? ==> r.value < |s| && s[r.value] == c
    ensures forall k :: 0 <= k < |s| && (r.None? || r.value < k) ==> s[k] != c
  {
    if s == [] then None
    else if s[|s| - 1] == c then Some(|s| - 1)
    else LastIndexOf(s[..|s| - 1], c)
  }

  /** The extension of a file name, as `Path::extension` finds it: the text
      after the last dot, absent when the name has no dot or when its only
      dot is the leading one. */
  function Extension(name: string): (r: Option<string>)
    ensures r.None? <==> '.' !in name || (name[0] == '.' && '.' !in name[1..])
    ensures r.Some? ==> var dot := |name| - |r.value| - 1;
      0 < dot && name[dot] == '.' && name[dot + 1..] == r.value && '.' !in r.value
  {
    match LastIndexOf(name, '.')
    case None => None
    case Some(dot) =>
      if dot == 0 then
        assert '.' !in name[1..] by {
          forall k | 0 <= k < |name[1..]| ensures name[1..][k] != '.' {
            assert name[1..][k] == name[k + 1];
          }
        }
        None
      else
        assert name[0] == '.' ==> name[1..][dot - 1] == '.';
        var ext := name[dot + 1..];
        assert forall k :: 0 <= k < |ext| ==> ext[k] == name[dot + 1 + k];
        Some(name[dot + 1..])
  }

  /** A file name has the extension "md" exactly when it ends in ".md" after
      at least one more character. */
  lemma MdExtensionIffSuffix(name: string)
    ensures Extension(name) == Some("md") <==> |name| >= 4 && name[|name| - 3..] == ".md"
  {
    var dot := |name| - 3;
    if Extension(name) == Some("md") {
      assert 0 < dot && name[dot] == '.' && name[dot + 1..] == "md";
      assert name[dot..] == [name[dot]] + name[dot + 1..];
    }
    if |name| >= 4 && name[dot..] == ".md" {
      assert name[dot] == '.' && name[dot + 1] == 'm' && name[dot + 2] == 'd';
      var last := LastIndexOf(name, '.');
      assert last.Some? && dot <= last.value by {
        assert 0 <= dot < |name| && name[dot] == '.';
      }
      assert last == Some(dot);
      assert name[dot + 1..] == "md";
    }
  }

  /** `extension().unwrap_or_default() == "md"`: case-sensitive and exact, so
      a name counts as markdown exactly when it ends in ".md" after at least
      one more character; a missing extension compares as the empty text. */
  predicate IsMarkdown(name: string)
    ensures IsMarkdown(name) <==>
      |name| >= 4 && name[|name| - 3] == '.' && name[|name| - 2] == 'm' && name[|name| - 1] == 'd'
  {
    MdExtensionIffSuffix(name);
    Extension(name) == Some("md")
  }

  predicate IsMarkdownEntry(item: DirItem) {
    item.Entry? && IsMarkdown(item.name)
  }

  /** The path a directory entry is opened by. */
  function PathOf(item: DirItem): string
    requires item.Entry?
  {
    ContentRoot + item.name
  }

  /** An item ends a scan with an error: the enumeration failed, or a
      markdown file could not be read or parsed. Other files are never read. */
  predicate Fails(decode: Decoder, item: DirItem) {
    item.EntryError? || (IsMarkdown(item.name) && ReadMetadata(decode, item.file).Err?)
  }

  /** The error a failing item reports. */
  function ItemError(decode: Decoder, item: DirItem): (e: BlogError)
    requires Fails(decode, item)
    ensures e != NotFound && e != HighlightError
  {
    if item.EntryError? then IoError else ReadMetadata(decode, item.file).error
  }

  /** Item `i` is the first failing one. */
  predicate FirstFailureAt(decode: Decoder, items: seq<DirItem>, i: int) {
    && 0 <= i < |items|
    && Fails(decode, items[i])
    && forall j :: 0 <= j < i ==> !Fails(decode, items[j])
  }

  /** The markdown entries, in enumeration order. */
  function MarkdownEntries(items: seq<DirItem>): (r: seq<DirItem>)
    ensures forall j :: 0 <= j < |r| ==> IsMarkdownEntry(r[j])
    ensures forall j :: 0 <= j < |r| ==> r[j] in items
    ensures |r| <= |items|
  {
    if items == [] then []
    else if IsMarkdownEntry(items[0]) then [items[0]] + MarkdownEntries(items[1..])
    else MarkdownEntries(items[1..])
  }

  /** The listing scan: metadata of the markdown entries in enumeration
      order, stopping at the first item that fails. */
  function AllPostMeta(decode: Decoder, items: seq<DirItem>): (r: Result<seq<Metadata>>)
    ensures r.Ok? ==> |r.value| <= |items|
    ensures r.Err? ==> r.error != NotFound && r.error != HighlightError
  {
    if items == [] then Ok([])
    else
      match items[0]
      case EntryError => Err(IoError)
      case Entry(name, file) =>
        if !IsMarkdown(name) then
          AllPostMeta(decode, items[1..])
        else
          var m :- ReadMetadata(decode, file);
          var ms :- AllPostMeta(decode, items[1..]);
          Ok([m] + ms)
  }

  /** The listing succeeds exactly when no item fails. */
  lemma {:induction false} ListingSucceedsIff(decode: Decoder, items: seq<DirItem>)
    ensures AllPostMeta(decode, items).Ok? <==> forall i :: 0 <= i < |items| ==> !Fails(decode, items[i])
    decreases |items|
  {
    if items != [] {
      var rest := items[1..];
      ListingSucceedsIff(decode, rest);
      if AllPostMeta(decode, items).Ok? {
        forall i | 0 <= i < |items|
          ensures !Fails(decode, items[i])
        {
          if i > 0 {
            assert items[i] == rest[i - 1];
          }
        }
      } else if !Fails(decode, items[0]) {
        var j :| 0 <= j < |rest| && Fails(decode, rest[j]);
        assert rest[j] == items[j + 1];
      }
    }
  }

  /** A failed listing reports the error of the first failing item and
      nothing else: there is no partial result. */
  lemma {:induction false} ListingReportsFirstFailure(decode: Decoder, items: seq<DirItem>, i: nat)
    requires FirstFailureAt(decode, items, i)
    ensures AllPostMeta(decode, items) == Err(ItemError(decode, items[i]))
    decreases |items|
  {
    if i > 0 {
      assert !Fails(decode, items[0]);
      assert FirstFailureAt(decode, items[1..], i - 1) by {
        forall j | 0 <= j < i - 1
          ensures !Fails(decode, items[1..][j])
        {
          assert items[1..][j] == items[j + 1];
        }
        assert items[1..][i - 1] == items[i];
      }
      ListingReportsFirstFailure(decode, items[1..], i - 1);
    }
  }

  /** The contents of an item; an enumeration error has none. */
  function FileOf(item: DirItem): Option<string> {
    if item.Entry? then item.file else None
  }

  /** `ms` are the records read from the entries `md`, one each, in order. */
  predicate RecordsOf(decode: Decoder, md: seq<DirItem>, ms: seq<Metadata>) {
    && |ms| == |md|
    && forall j :: 0 <= j < |ms| ==> ReadMetadata(decode, FileOf(md[j])) == Ok(ms[j])
  }

  lemma RecordsCons(decode: Decoder, e: DirItem, m: Metadata, md: seq<DirItem>, ms: seq<Metadata>)
    requires ReadMetadata(decode, FileOf(e)) == Ok(m)
    requires RecordsOf(decode, md, ms)
    ensures RecordsOf(decode, [e] + md, [m] + ms)
  {
    var md2, ms2 := [e] + md, [m] + ms;
    forall j | 0 <= j < |ms2|
      ensures ReadMetadata(decode, FileOf(md2[j])) == Ok(ms2[j])
    {
      if j > 0 {
        assert md2[j] == md[j - 1] && ms2[j] == ms[j - 1];
      }
    }
  }

  /** A successful listing holds one record per markdown entry, in
      enumeration order, each the metadata read from that entry. */
  lemma {:induction false} ListingRecords(decode: Decoder, items: seq<DirItem>)
    requires AllPostMeta(decode, items).Ok?
    ensures RecordsOf(decode, MarkdownEntries(items), AllPostMeta(decode, items).value)
    decreases |items|
  {
    if items != [] {
      var tail := AllPostMeta(decode, items[1..]);
      if IsMarkdownEntry(items[0]) {
        var m := ReadMetadata(decode, items[0].file);
        assert m.Ok? && tail.Ok?;
        assert AllPostMeta(decode, items).value == [m.value] + tail.value;
        assert MarkdownEntries(items) == [items[0]] + MarkdownEntries(items[1..]);
        ListingRecords(decode, items[1..]);
        RecordsCons(decode, items[0], m.value, MarkdownEntries(items[1..]), tail.value);
      } else {
        assert AllPostMeta(decode, items) == tail;
        assert MarkdownEntries(items) == MarkdownEntries(items[1..]);
        ListingRecords(decode, items[1..]);
      }
    }
  }

  /** The entry ends a lookup: it fails, or it is a markdown file whose
      derived link is the one asked for. */
  predicate Matches(decode: Decoder, item: DirItem, link: string) {
    && IsMarkdownEntry(item)
    && ReadMetadata(decode, item.file).Ok?
    && ReadMetadata(decode, item.file).value.link == link
  }

  predicate Stops(decode: Decoder, item: DirItem, link: string) {
    Fails(decode, item) || Matches(decode, item, link)
  }

  /** Item `i` is the first one that stops the lookup. */
  predicate FirstStopAt(decode: Decoder, items: seq<DirItem>, link: string, i: int) {
    && 0 <= i < |items|
    && Stops(decode, items[i], link)
    && forall j :: 0 <= j < i ==> !Stops(decode, items[j], link)
  }

  /** The link lookup scan: the path of the first markdown entry deriving
      `link`, unless an entry fails first; "Not Found" when the scan ends. */
  function LinkToPath(decode: Decoder, items: seq<DirItem>, link: string): (r: Result<string>)
    ensures r.Ok? ==> ContentRoot < r.value
    ensures r.Err? ==> r.error != HighlightError
  {
    if items == [] then Err(NotFound)
    else
      match items[0]
      case EntryError => Err(IoError)
      case Entry(name, file) =>
        if !IsMarkdown(name) then
          LinkToPath(decode, items[1..], link)
        else
          var m :- ReadMetadata(decode, file);
          if m.link == link then Ok(ContentRoot + name)
          else LinkToPath(decode, items[1..], link)
  }

  /** "Not Found" exactly when no entry fails and none derives the link. */
  lemma {:induction false} LookupNotFoundIff(decode: Decoder, items: seq<DirItem>, link: string)
    ensures LinkToPath(decode, items, link) == Err(NotFound)
        <==> forall i :: 0 <= i < |items| ==> !Stops(decode, items[i], link)
    decreases |items|
  {
    if items != [] {
      LookupNotFoundIff(decode, items[1..], link);
      assert forall i :: 1 <= i < |items| ==> items[i] == items[1..][i - 1];
      assert forall j :: 0 <= j < |items| - 1 ==> items[1..][j] == items[j + 1];
      if Fails(decode, items[0]) {
        assert ItemError(decode, items[0]) != NotFound;
      }
    }
  }

  /** The first entry that stops the lookup decides it: its path if it
      derives the link, its error if it fails. */
  lemma {:induction false} LookupFirstStop(decode: Decoder, items: seq<DirItem>, link: string, i: nat)
    requires FirstStopAt(decode, items, link, i)
    ensures LinkToPath(decode, items, link)
      == if Matches(decode, items[i], link) then Ok(PathOf(items[i])) else Err(ItemError(decode, items[i]))
    decreases |items|
  {
    if i > 0 {
      assert !Stops(decode, items[0], link);
      assert FirstStopAt(decode, items[1..], link, i - 1) by {
        forall j | 0 <= j < i - 1
          ensures !Stops(decode, items[1..][j], link)
        {
          assert items[1..][j] == items[j + 1];
        }
        assert items[1..][i - 1] == items[i];
      }
      LookupFirstStop(decode, items[1..], link, i - 1);
    }
  }

  /** A found path is the path of an entry deriving the link. */
  lemma {:induction false} LookupFound(decode: Decoder, items: seq<DirItem>, link: string)
    ensures LinkToPath(decode, items, link).Ok? ==>
      exists i :: 0 <= i < |items| && Matches(decode, items[i], link) &&
                  LinkToPath(decode, items, link).value == PathOf(items[i])
    decreases |items|
  {
    if LinkToPath(decode, items, link).Err? {
    } else if Matches(decode, items[0], link) {
      assert LinkToPath(decode, items, link).value == PathOf(items[0]);
    } else {
      var rest := items[1..];
      assert LinkToPath(decode, items, link) == LinkToPath(decode, rest, link);
      LookupFound(decode, rest, link);
      var i :| 0 <= i < |rest| && Matches(decode, rest[i], link)
        && LinkToPath(decode, rest, link).value == PathOf(rest[i]);
      assert rest[i] == items[i + 1];
    }
  }

  /** Any error other than "Not Found" comes from an entry that failed. */
  lemma {:induction false} LookupErrorCause(decode: Decoder, items: seq<DirItem>, link: string)
    requires LinkToPath(decode, items, link).Err?
    requires LinkToPath(decode, items, link).error != NotFound
    ensures exists i :: 0 <= i < |items| && Fails(decode, items[i])
    decreases |items|
  {
    if !Fails(decode, items[0]) {
      LookupErrorCause(decode, items[1..], link);
      var i :| 0 <= i < |items[1..]| && Fails(decode, items[1..][i]);
      assert items[1..][i] == items[i + 1];
    }
  }

  /** Every link the listing shows resolves to a markdown entry deriving it. */
  lemma ListedLinksResolve(decode: Decoder, items: seq<DirItem>, k: nat)
    requires AllPostMeta(decode, items).Ok?
    requires k < |AllPostMeta(decode, items).value|
    ensures var link := AllPostMeta(decode, items).value[k].link;
      var r := LinkToPath(decode, items, link);
      r.Ok? && exists i :: 0 <= i < |items| && Matches(decode, items[i], link) && r.value == PathOf(items[i])
  {
    var link := AllPostMeta(decode, items).value[k].link;
    var md := MarkdownEntries(items);
    ListingSucceedsIff(decode, items);
    ListingRecords(decode, items);
    assert md[k] in md;
    var i :| 0 <= i < |items| && items[i] == md[k];
    assert Matches(decode, items[i], link);
    LookupNotFoundIff(decode, items, link);
    if LinkToPath(decode, items, link).Err? {
      LookupErrorCause(decode, items, link);
    }
    LookupFound(decode, items, link);
  }

  /** Once an entry has stopped the lookup, later entries cannot change its
      answer: not a later duplicate link, not a later broken file. */
  lemma {:induction false} LookupIgnoresLaterEntries(decode: Decoder, items: seq<DirItem>, more: seq<DirItem>, link: string)
    requires exists i :: 0 <= i < |items| && Stops(decode, items[i], link)
    ensures LinkToPath(decode, items + more, link) == LinkToPath(decode, items, link)
  {
    var all := items + more;
    assert all[0] == items[0];
    assert all[1..] == items[1..] + more;
    if !Stops(decode, items[0], link) {
      var i :| 0 <= i < |items| && Stops(decode, items[i], link);
      assert items[1..][i - 1] == items[i];
      LookupIgnoresLaterEntries(decode, items[1..], more, link);
    }
  }

  /** A failing entry fails the whole listing, whatever follows it. */
  lemma {:induction false} ListingFailsFast(decode: Decoder, items: seq<DirItem>, more: seq<DirItem>)
    requires exists i :: 0 <= i < |items| && Fails(decode, items[i])
    ensures AllPostMeta(decode, items + more) == AllPostMeta(decode, items)
  {
    var all := items + more;
    assert all[0] == items[0];
    assert all[1..] == items[1..] + more;
    if !Fails(decode, items[0]) {
      var i :| 0 <= i < |items| && Fails(decode, items[i]);
      assert items[1..][i - 1] == items[i];
      ListingFailsFast(decode, items[1..], more);
    }
  }

  /** A file that is not markdown is skipped without being read, so an
      unreadable one does no harm. */
  lemma NonMarkdownSkipped(decode: Decoder, other: string, post: string, text: string)
    requires !IsMarkdown(other) && IsMarkdown(post)
    requires ParseMetadata(decode, text).Ok?
    ensures AllPostMeta(decode, [Entry(other, None), Entry(post, Some(text))])
      == Ok([ParseMetadata(decode, text).value])
  {
    var items := [Entry(other, None), Entry(post, Some(text))];
    var m := ParseMetadata(decode, text).value;
    AllPostMetaStep(decode, items, 0);
    AllPostMetaStep(decode, items, 1);
    assert items[2..] == [];
    PrependOntoNothing([m]);
    assert items[0..] == items;
  }

  /** The names of the worked example: "notes.txt" is not markdown, "post.md" is. */
  lemma NotesAndPostNames(notes: string, post: string)
    requires notes == "notes.txt" && post == "post.md"
    ensures !IsMarkdown(notes) && IsMarkdown(post)
  {
    assert post[|post| - 3..] == ".md";
    assert notes[|notes| - 3..] == "txt";
  }

  /** One step of the listing scan. */
  lemma AllPostMetaStep(decode: Decoder, items: seq<DirItem>, i: nat)
    requires i < |items|
    ensures items[i].EntryError? ==> AllPostMeta(decode, items[i..]) == Err(IoError)
    ensures items[i].Entry? && !IsMarkdown(items[i].name) ==>
      AllPostMeta(decode, items[i..]) == AllPostMeta(decode, items[i + 1..])
    ensures IsMarkdownEntry(items[i]) && ReadMetadata(decode, items[i].file).Err? ==>
      AllPostMeta(decode, items[i..]) == Err(ReadMetadata(decode, items[i].file).error)
    ensures IsMarkdownEntry(items[i]) && ReadMetadata(decode, items[i].file).Ok? ==>
      AllPostMeta(decode, items[i..])
        == PrependAll([ReadMetadata(decode, items[i].file).value], AllPostMeta(decode, items[i + 1..]))
  {
    assert items[i..][0] == items[i] && items[i..][1..] == items[i + 1..];
  }

  /** The listing loop: open the directory, walk its entries, skip what is
      not markdown, read the rest, stop at the first failure. */
  method GetAllPostMeta(decode: Decoder, dir: Option<seq<DirItem>>) returns (r: Result<seq<Metadata>>)
    ensures dir.None? ==> r == Err(IoError)
    ensures dir.Some? ==> r == AllPostMeta(decode, dir.value)
  {
    if dir.None? {
      return Err(IoError);
    }
    var items := dir.value;
    var metas: seq<Metadata> := [];
    var i := 0;
    assert items[i..] == items;
    PrependNothing(AllPostMeta(decode, items));
    while i < |items|
      invariant 0 <= i <= |items|
      invariant AllPostMeta(decode, items) == PrependAll(metas, AllPostMeta(decode, items[i..]))
    {
      AllPostMetaStep(decode, items, i);
      var item := items[i];
      if item.EntryError? {
        return Err(IoError);
      }
      if IsMarkdown(item.name) {
        var m := ReadMetadata(decode, item.file);
        if m.Err? {
          return Err(m.error);
        }
        PrependAllTwice(metas, [m.value], AllPostMeta(decode, items[i + 1..]));
        metas := metas + [m.value];
      }
      i := i + 1;
    }
    assert items[i..] == [];
    PrependOntoNothing(metas);
    return Ok(metas);
  }

  /** The lookup loop: the path of the first markdown entry whose derived
      link is `link`. */
  method ConvertLinkToPath(decode: Decoder, dir: Option<seq<DirItem>>, link: string) returns (r: Result<string>)
    ensures dir.None? ==> r == Err(IoError)
    ensures dir.Some? ==> r == LinkToPath(decode, dir.value, link)
  {
    if dir.None? {
      return Err(IoError);
    }
    var items := dir.value;
    var i := 0;
    assert items[i..] == items;
    while i < |items|
      invariant 0 <= i <= |items|
      invariant LinkToPath(decode, items, link) == LinkToPath(decode, items[i..], link)
    {
      assert items[i..][0] == items[i] && items[i..][1..] == items[i + 1..];
      match items[i] {
        case EntryError =>
          return Err(IoError);
        case Entry(name, file) =>
          if IsMarkdown(name) {
            var m := ReadMetadata(decode, file);
            if m.Err? {
              return Err(m.error);
            }
            if m.value.link == link {
              return Ok(ContentRoot + name);
            }
          }
      }
      i := i + 1;
    }
    assert items[i..] == [];
    return Err(NotFound);
  }
}
