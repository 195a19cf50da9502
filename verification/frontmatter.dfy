/** Front matter: the file text is cut on "---", the piece before the first
    delimiter is dropped, and the next piece is handed to the YAML decoder,
    whose three fields become a `Metadata` record with a derived link. */
module FrontMatter {
  import opened Results
  import opened Slug

  const Delimiter: string := "---"

  /** A delimiter starts at index `k` of `s`. */
  predicate DelimiterAt(s: string, k: int) {
    0 <= k && k + 3 <= |s| && s[k..k + 3] == Delimiter
  }

  predicate NoDelimiter(s: string) {
    forall k | 0 <= k < |s| :: !DelimiterAt(s, k)
  }

  /** Leftmost delimiter starting at or after `from`. */
  function FindDelimiter(s: string, from: nat): (r: Option<nat>)
    requires from <= |s|
    ensures r.Some? ==> from <= r.value && DelimiterAt(s, r.value)
    ensures forall k :: from <= k && (r.None? || k < r.value) ==> !DelimiterAt(s, k)
    decreases |s| - from
  {
    if from + 3 > |s| then None
    else if s[from..from + 3] == Delimiter then Some(from)
    else FindDelimiter(s, from + 1)
  }

  /** The pieces glued back together with the delimiter between them. */
  function Join(pieces: seq<string>): string
    decreases |pieces|
  {
    if pieces == [] then ""
    else if |pieces| == 1 then pieces[0]
    else pieces[0] + Delimiter + Join(pieces[1..])
  }

  /** What a sequence of pieces must look like to be the split of its join:
      no piece but the last can have a delimiter inside it or starting in its
      last two characters (the leftmost match would have cut there), and the
      last piece holds none at all. */
  predicate Splitting(pieces: seq<string>) {
    && |pieces| >= 1
    && (forall j :: 0 <= j < |pieces| - 1 ==> NoDelimiter(pieces[j] + "--"))
    && NoDelimiter(pieces[|pieces| - 1])
  }

  /** `str::split("---")`: cut at every leftmost, non-overlapping delimiter. */
  function Split(s: string): (pieces: seq<string>)
    ensures Splitting(pieces)
    ensures Join(pieces) == s
    decreases |s|
  {
    match FindDelimiter(s, 0)
    case None => [s]
    case Some(i) =>
      PieceBeforeFirstDelimiter(s, i);
      [s[..i]] + Split(s[i + 3..])
  }

  /** The text before the leftmost delimiter, with the delimiter's first two
      characters, holds no delimiter. */
  lemma PieceBeforeFirstDelimiter(s: string, i: nat)
    requires FindDelimiter(s, 0) == Some(i)
    ensures NoDelimiter(s[..i] + "--")
    ensures s[..i] + Delimiter + s[i + 3..] == s
  {
    assert s[i..i + 3] == Delimiter;
    assert s[i] == s[i..i + 3][0] && s[i + 1] == s[i..i + 3][1];
    var t := s[..i + 2];
    assert s[..i] + "--" == t;
    forall k | DelimiterAt(t, k)
      ensures false
    {
      assert t[k..k + 3] == s[k..k + 3];
      assert DelimiterAt(s, k);
    }
    assert s[..i] + s[i..i + 3] == s[..i + 3];
    assert s == s[..i + 3] + s[i + 3..];
  }

  /** A piece that cannot hide a delimiter is cut off exactly at the
      delimiter that follows it. */
  lemma {:induction false} SplitAfterPiece(p: string, rest: string)
    requires NoDelimiter(p + "--")
    ensures Split(p + Delimiter + rest) == [p] + Split(rest)
  {
    var s := p + Delimiter + rest;
    assert s[|p|..|p| + 3] == Delimiter;
    assert DelimiterAt(s, |p|);
    assert s[..|p| + 2] == p + "--";
    forall k | 0 <= k < |p|
      ensures !DelimiterAt(s, k)
    {
      if DelimiterAt(s, k) {
        assert s[k..k + 3] == s[..|p| + 2][k..k + 3];
        assert DelimiterAt(p + "--", k);
      }
    }
    var r := FindDelimiter(s, 0);
    assert r == Some(|p|);
    assert s[..|p|] == p;
    assert s[|p| + 3..] == rest;
  }

  /** `Split` is the only splitting that joins back to the text. */
  lemma {:induction false} SplitUnique(pieces: seq<string>)
    requires Splitting(pieces)
    ensures Split(Join(pieces)) == pieces
    decreases |pieces|
  {
    if |pieces| == 1 {
      var s := pieces[0];
      assert FindDelimiter(s, 0) == None;
    } else {
      var tail := pieces[1..];
      SplittingTail(pieces);
      SplitUnique(tail);
      SplitAfterPiece(pieces[0], Join(tail));
      assert Join(pieces) == pieces[0] + Delimiter + Join(tail);
      assert [pieces[0]] + tail == pieces;
    }
  }

  /** Dropping the first piece of a splitting leaves a splitting. */
  lemma SplittingTail(pieces: seq<string>)
    requires Splitting(pieces) && |pieces| >= 2
    ensures NoDelimiter(pieces[0] + "--") && Splitting(pieces[1..])
  {
    var tail := pieces[1..];
    forall j | 0 <= j < |tail| - 1
      ensures NoDelimiter(tail[j] + "--")
    {
      assert tail[j] == pieces[j + 1];
    }
  }

  /** The second piece of the split: the text between the first and the
      second delimiter, or to the end of the text when there is only one.
      Without any delimiter there is no second piece. */
  function FrontMatterSegment(s: string): (r: Option<string>)
    ensures r.None? <==> NoDelimiter(s)
    ensures r.Some? ==> NoDelimiter(r.value)
  {
    var pieces := Split(s);
    if |pieces| < 2 then
      None
    else
      assert s == pieces[0] + Delimiter + Join(pieces[1..]);
      assert s[|pieces[0]|..|pieces[0]| + 3] == Delimiter;
      assert DelimiterAt(s, |pieces[0]|);
      if |pieces| == 2 then Some(pieces[1])
      else
        assert Join(pieces[1..]) == pieces[1] + Delimiter + Join(pieces[2..]);
        assert (pieces[1] + "--")[..|pieces[1]|] == pieces[1];
        NoDelimiterPrefix(pieces[1] + "--", |pieces[1]|);
        Some(pieces[1])
  }

  /** A prefix of a delimiter-free text is delimiter-free. */
  lemma NoDelimiterPrefix(s: string, n: nat)
    requires n <= |s| && NoDelimiter(s)
    ensures NoDelimiter(s[..n])
  {
    forall k | DelimiterAt(s[..n], k)
      ensures false
    {
      assert s[..n][k..k + 3] == s[k..k + 3];
      assert DelimiterAt(s, k);
    }
  }

  /** The usual layout: the segment is exactly the text between the first
      two delimiters. */
  lemma SegmentBetweenDelimiters(pre: string, fm: string, body: string)
    requires NoDelimiter(pre + "--") && NoDelimiter(fm + "--")
    ensures FrontMatterSegment(pre + Delimiter + fm + Delimiter + body) == Some(fm)
  {
    var rest := fm + Delimiter + body;
    var s := pre + Delimiter + rest;
    assert pre + Delimiter + fm + Delimiter + body == s;
    var pieces := [pre] + ([fm] + Split(body));
    assert Split(s) == pieces by {
      SplitAfterPiece(pre, rest);
      SplitAfterPiece(fm, body);
    }
    assert |pieces| >= 2 && pieces[1] == fm;
  }

  /** With a single delimiter the segment runs to the end of the text; the
      file is not rejected. */
  lemma SegmentToEndOfText(pre: string, fm: string)
    requires NoDelimiter(pre + "--") && NoDelimiter(fm)
    ensures FrontMatterSegment(pre + Delimiter + fm) == Some(fm)
  {
    SplitAfterPiece(pre, fm);
    assert FindDelimiter(fm, 0) == None;
  }

  /** The three fields the decoder must find in the segment. */
  datatype Fields = Fields(title: string, date: string, summary: string)

  /** A post's metadata; `link` is derived, never read from the file. */
  datatype Metadata = Metadata(title: string, date: string, summary: string, link: string)

  /** The YAML decoder into `Fields`; `None` is a decode failure such as a
      missing or mistyped field. */
  type Decoder = string -> Option<Fields>

  /** The link is the one derived from the record's own title and date. */
  predicate WellFormed(m: Metadata) {
    m.link == DeriveLink(m.title, m.date)
  }

  /** The custom deserializer: decode the three fields, keep them verbatim
      and derive the link from title and date alone. */
  function Deserialize(decode: Decoder, yaml: string): (r: Result<Metadata>)
    ensures r.Err? <==> decode(yaml).None?
    ensures r.Err? ==> r.error == MetadataError
    ensures r.Err? ==> r.error == MalformedDocument || r.error == MetadataError
    ensures r.Ok? ==> WellFormed(r.value)
    ensures r.Ok? ==> Fields(r.value.title, r.value.date, r.value.summary) == decode(yaml).value
  {
    match decode(yaml)
    case None => Err(MetadataError)
    case Some(f) => Ok(Metadata(f.title, f.date, f.summary, DeriveLink(f.title, f.date)))
  }

  /** Metadata of a file's text. A text without any delimiter is malformed;
      otherwise the outcome is the decoder's verdict on the segment. */
  function ParseMetadata(decode: Decoder, contents: string): (r: Result<Metadata>)
    ensures r == Err(MalformedDocument) <==> NoDelimiter(contents)
    ensures r == Err(MetadataError) <==> !NoDelimiter(contents) && decode(FrontMatterSegment(contents).value).None?
    ensures r.Err? ==> r.error == MalformedDocument || r.error == MetadataError
    ensures r.Ok? ==> WellFormed(r.value)
    ensures r.Ok? ==> Fields(r.value.title, r.value.date, r.value.summary) == decode(FrontMatterSegment(contents).value).value
  {
    match FrontMatterSegment(contents)
    case None => Err(MalformedDocument)
    case Some(yaml) => Deserialize(decode, yaml)
  }

  /** Metadata of a file that may fail to open or to read as text. */
  function ReadMetadata(decode: Decoder, file: Option<string>): (r: Result<Metadata>)
    ensures r == Err(IoError) <==> file.None?
    ensures file.Some? ==> r == ParseMetadata(decode, file.value)
  {
    match file
    case None => Err(IoError)
    case Some(contents) => ParseMetadata(decode, contents)
  }

  /** A file laid out as delimiter, header, delimiter, body parses to the
      header's fields with the derived link, whatever the body holds. */
  lemma ParseWellFormedFile(decode: Decoder, header: string, body: string)
    requires NoDelimiter(header + "--")
    requires decode(header).Some?
    ensures var f := decode(header).value;
      ParseMetadata(decode, Delimiter + header + Delimiter + body)
        == Ok(Metadata(f.title, f.date, f.summary, DeriveLink(f.title, f.date)))
  {
    assert NoDelimiter("" + "--");
    SegmentBetweenDelimiters("", header, body);
    assert "" + Delimiter + header + Delimiter + body == Delimiter + header + Delimiter + body;
  }
}
