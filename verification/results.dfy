/** The outcome of every step of the blog's content pipeline.

    In the blog module each fallible step hands back `Result<_, Box<dyn Error>>`
    and `?` stops at the first error. Here `Result` plays that part (it works
    with `:-`), and the boxed error becomes one of five named kinds, so a
    contract can say which failure a caller sees. */
module Results {

  /** The kinds of failure the content pipeline can surface. */
  datatype BlogError =
    | IoError            // a directory entry or a file could not be read
    | MalformedDocument  // the file holds no "---" delimiter at all
    | MetadataError      // the front-matter decoder rejected the segment
    | NotFound           // no markdown file derives the requested link
    | HighlightError     // the highlighter failed on a code block

  datatype Option<+T> = None | Some(value: T)

  datatype Result<+T> = Ok(value: T) | Err(error: BlogError) {

    predicate IsFailure() {
      Err?
    }

    function PropagateFailure<U>(): Result<U>
      requires Err?
    {
      Err(error)
    }

    function Extract(): T
      requires Ok?
    {
      value
    }
  }

  /** Puts `prefix` in front of a successful sequence; an error stays as it is. */
  function PrependAll<T>(prefix: seq<T>, r: Result<seq<T>>): Result<seq<T>> {
    match r
    case Ok(v) => Ok(prefix + v)
    case Err(e) => Err(e)
  }

  lemma PrependNothing<T>(r: Result<seq<T>>)
    ensures PrependAll([], r) == r
  {
    if r.Ok? {
      assert [] + r.value == r.value;
    }
  }

  lemma PrependOntoNothing<T>(prefix: seq<T>)
    ensures PrependAll(prefix, Ok([])) == Ok(prefix)
  {
    assert prefix + [] == prefix;
  }

  /** Prepending in two steps is prepending the concatenation. */
  lemma PrependAllTwice<T>(a: seq<T>, b: seq<T>, r: Result<seq<T>>)
    ensures PrependAll(a, PrependAll(b, r)) == PrependAll(a + b, r)
  {
    if r.Ok? {
      assert a + (b + r.value) == (a + b) + r.value;
    }
  }
}
