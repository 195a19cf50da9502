# Blog content pipeline, modelled in Dafny

This project models the content pipeline of a small markdown blog server
(`src/blog/mod.rs`). Each post is a markdown file with a YAML front-matter
block. The pipeline does four things:

- It derives a post's `link` (its slug) from the title and the date.
- It cuts the front matter out of a file on `"---"` and decodes it into a
  `Metadata` record.
- It scans the `blog/` directory to list every post, or to find the file a
  link belongs to.
- It rewrites the markdown event stream so that each code block becomes one
  syntax-highlighted HTML fragment.

The modules follow those components:

| file | module | models |
|---|---|---|
| results.dfy | `Results` | the error kinds (`IoError`, `MalformedDocument`, `MetadataError`, `NotFound`, `HighlightError`), `Option`, `Result` |
| slug.dfy | `Slug` | link derivation in the custom `Deserialize` of `Metadata` |
| frontmatter.dfy | `FrontMatter` | `str::split("---")`, the front-matter segment, decoding into `Metadata`, `get_post_mata_by_path` |
| repository.dfy | `Repository` | file extensions, `get_all_post_meta`, `covert_link_to_path` |
| render.dfy | `Render` | the event-rewriting loop of `get_post_by_path` |

Everything outside the program's own logic is a parameter:

- The YAML decoder is a `Decoder` function from the segment's text to the
  three fields, or `None`.
- The syntax highlighter is a `Highlighter`. It holds a grammar lookup by
  language token and a rendering function that may fail.
- File contents are an `Option<string>`, where `None` means the file cannot
  be read.
- The directory is a sequence of `DirItem`s: entries, or enumeration
  errors.

Each repository operation has two forms. A recursive function is the
reference definition. A method with a loop mirrors the source's loop and is
proved equal to that function. The renderer has the same pair: the fold
`Render.Run` and the loop `Render.RewriteEvents`.

A file with a single `"---"` is not rejected. The source's `split` hands
back the rest of the text as the second piece, so the front matter runs to
the end of the text (`FrontMatter.SegmentToEndOfText`). A file with no
`"---"` at all makes the source panic. The model turns that panic into the
error `MalformedDocument` instead (see `FrontMatter.ParseMetadata` under
"## Left out").

The scan functions `Repository.AllPostMeta` and `Repository.LinkToPath`
state only simple facts in their own contracts. The lemmas listed next to
them below characterise them completely.

## Model

| member | source | states |
|---|---|---|
| Slug.AsciiLower | src/blog/mod.rs:45 | lowercasing a character never yields an upper-case ASCII letter, changes only upper-case letters, turns each upper-case letter into the lower-case letter at the same place in the alphabet, yields a lower-case letter exactly for letters of either case, and keeps spaces and hyphens, so hyphenation afterwards sees every space of the title |
| Slug.Lowercase | src/blog/mod.rs:45 | lowercasing keeps the length and maps each character on its own (ASCII letters only) |
| Slug.ReplaceSpaces | src/blog/mod.rs:45 | every space, not only the first, becomes a hyphen; nothing else changes and no space remains |
| Slug.DeriveLink | src/blog/mod.rs:45 | the link has length title + 1 + date; position i < \|title\| is the slug character of title[i] and never a space; then one hyphen; then the date verbatim |
| Slug.HelloWorldLink | src/blog/mod.rs:45 | ("Hello World", "2024-01-01") gives "hello-world-2024-01-01" |
| Slug.LinkHasNoSpaces | src/blog/mod.rs:45 | a link contains a space only if the date does |
| Slug.LinkEndsWithDate | src/blog/mod.rs:45 | a link ends with "-" followed by the date |
| Slug.LinkCollision | src/blog/mod.rs:45 | two titles of equal length collide on a date exactly when they agree character by character up to case and space/hyphen (both directions) |
| Slug.LinkDeterminesDate | src/blog/mod.rs:45 | for a fixed title, equal links mean equal dates |
| Slug.SlugifyIdempotent | src/blog/mod.rs:45 | slugifying a slug changes nothing, so a title already in link form collides with its original |
| FrontMatter.FindDelimiter | src/blog/mod.rs:60 | finds the leftmost "---" at or after a position, and reports none only when there is none |
| FrontMatter.Split | src/blog/mod.rs:60 | splitting on "---" gives at least one piece; joining the pieces with "---" restores the text; only the leftmost, non-overlapping delimiters cut |
| FrontMatter.SplitAfterPiece | src/blog/mod.rs:60 | a piece that cannot hide a delimiter is cut off at the delimiter following it |
| FrontMatter.SplitUnique | src/blog/mod.rs:60 | `Split` is the only splitting that joins back to the text |
| FrontMatter.FrontMatterSegment | src/blog/mod.rs:60-62 | a second piece exists exactly when the text holds a "---", and that piece holds none |
| FrontMatter.SegmentBetweenDelimiters | src/blog/mod.rs:60-62 | the segment is exactly the text between the first and second delimiter |
| FrontMatter.SegmentToEndOfText | src/blog/mod.rs:60-62 | with one delimiter the segment is the rest of the text |
| FrontMatter.Deserialize | src/blog/mod.rs:28-53 | decoding fails exactly when the decoder does, with `MetadataError`; on success title, date and summary are kept verbatim and the link is derived from title and date |
| FrontMatter.ParseMetadata | src/blog/mod.rs:60-64 | a text without "---" is `MalformedDocument`; a rejected segment is `MetadataError`; no other error occurs, so a segment the decoder accepts always parses; a parsed record holds exactly the title, date and summary the decoder read from the segment after the first "---", and its link is derived from them |
| FrontMatter.ReadMetadata | src/blog/mod.rs:56-65 | an unreadable file is `IoError`; a readable one is parsed |
| FrontMatter.ParseWellFormedFile | src/blog/mod.rs:42-63 | a file made of "---", a header, "---" and any body parses to the header's fields with the derived link |
| Repository.LastIndexOf | src/blog/mod.rs:74 | finds the last occurrence of a character, and none only when it is absent |
| Repository.Extension | src/blog/mod.rs:74 | the extension is the text after the last dot; it is absent exactly when there is no dot, or the only dot leads the name |
| Repository.MdExtensionIffSuffix | src/blog/mod.rs:74 | a name's extension is "md" exactly when the name ends in ".md" after at least one more character |
| Repository.IsMarkdown | src/blog/mod.rs:74 | a name counts as markdown exactly when it ends in ".md" after at least one more character (case-sensitive; a missing extension is not "md") |
| Repository.NotesAndPostNames | src/blog/mod.rs:74 | "notes.txt" is not markdown and "post.md" is |
| Repository.AllPostMeta | src/blog/mod.rs:67-82 | the listing never holds more records than there are items, and fails only with an I/O, malformed-document or metadata error, never "Not Found"; its full behaviour is stated by `ListingSucceedsIff`, `ListingReportsFirstFailure` and `ListingRecords` |
| Repository.ListingSucceedsIff | src/blog/mod.rs:72-81 | the listing succeeds exactly when no item fails: no enumeration error, and no markdown file that cannot be read or parsed |
| Repository.ListingReportsFirstFailure | src/blog/mod.rs:72-81 | a failed listing is exactly the first failing item's error, with no partial result |
| Repository.ListingRecords | src/blog/mod.rs:72-81 | a successful listing holds one record per markdown entry, in enumeration order, each the metadata read from that entry |
| Repository.NonMarkdownSkipped | src/blog/mod.rs:72-79 | a non-markdown file is skipped without being read, even if unreadable |
| Repository.ListingFailsFast | src/blog/mod.rs:78 | after a failing entry, nothing that follows changes the listing's outcome |
| Repository.GetAllPostMeta | src/blog/mod.rs:67-82 | the listing loop computes `AllPostMeta`; an unreadable directory is `IoError` |
| Repository.LinkToPath | src/blog/mod.rs:84-99 | a found path has "blog/" as a proper prefix (a non-empty file name follows it), and the lookup never fails with a highlighting error; its full behaviour is stated by `LookupNotFoundIff`, `LookupFirstStop`, `LookupFound` and `LookupErrorCause` |
| Repository.LookupNotFoundIff | src/blog/mod.rs:87-98 | the lookup answers "Not Found" exactly when no entry fails and no markdown entry derives the link |
| Repository.LookupFirstStop | src/blog/mod.rs:87-98 | the first entry that fails or derives the link decides: its path "blog/" + name if it matches, its error if it fails |
| Repository.LookupFound | src/blog/mod.rs:93-95 | a found path is the path of a markdown entry whose derived link is the query |
| Repository.LookupErrorCause | src/blog/mod.rs:87-98 | every lookup error other than "Not Found" comes from an entry that failed |
| Repository.LookupIgnoresLaterEntries | src/blog/mod.rs:87-98 | once an entry has stopped the lookup, later duplicates and later broken files change nothing |
| Repository.ListedLinksResolve | src/blog/mod.rs:67-99 | every link in a successful listing resolves to the path of a markdown entry whose metadata derives that link |
| Repository.ConvertLinkToPath | src/blog/mod.rs:84-99 | the lookup loop computes `LinkToPath`; an unreadable directory is `IoError` |
| Render.LangOf | src/blog/mod.rs:127-130 | a block has a language exactly when it is fenced, and then the language is its whole info string |
| Render.SyntaxFor | src/blog/mod.rs:134-137 | no language, or a token the highlighter does not know, gives plain text; a known token gives exactly the grammar it finds; any grammar other than plain text was found by the block's token |
| Render.Step | src/blog/mod.rs:124-156 | only closing an open block can fail, and only with `HighlightError`; a step emits at most one event and never a code-block marker; a block start emits nothing, records the block's language and keeps the buffer; a block end with no block open emits nothing and leaves the state as it was; text inside a block is buffered and emits nothing; closing an open block fails exactly when the highlighter fails on the buffer with the block's grammar, otherwise emits exactly that fragment as `Html` and resets the state; every other event passes unchanged with the state kept; the fold is inside a block afterwards exactly when the event opened one or one was open and not closed |
| Render.Run | src/blog/mod.rs:123-157 | the fold fails only with `HighlightError`; started in a consistent state it ends in one; its output has no code-block start or end, is no longer than its input, and holds only input events and highlighted fragments |
| Render.RunAppend | src/blog/mod.rs:123-157 | folding a concatenation folds the first part, then the second from the state the first left |
| Render.PassThrough | src/blog/mod.rs:146-155 | outside a code block, events without code-block markers pass unchanged, in order, and the fold stays outside |
| Render.PlainPrefix | src/blog/mod.rs:146-155 | plain events in front of a document are copied in front of its rendering and do not change whether it fails |
| Render.RewriteWithoutCodeBlocks | src/blog/mod.rs:146-155 | a document without code blocks is rewritten to itself |
| Render.BufferTexts | src/blog/mod.rs:146-149 | inside a code block, text events emit nothing and append their text to the buffer |
| Render.CodeBlockBecomesHtml | src/blog/mod.rs:125-145 | a block becomes one `Html` event: the highlighter's output for the concatenated text with the block language's grammar; the state is reset; a highlighting failure fails the fold |
| Render.BlockThenRest | src/blog/mod.rs:125-145 | a code block followed by the rest of a document renders as the block's fragment followed by the rest's rendering, and fails if highlighting the block fails |
| Render.UnknownLanguageFallsBack | src/blog/mod.rs:127-137 | an indented block, or a fenced one with an unknown token, is highlighted as plain text |
| Render.DocumentWithOneBlock | src/blog/mod.rs:118-157 | plain events, one block, then anything: the output is the plain events, the fragment, then the rest's output; a failing highlight fails the whole document |
| Render.StrayEndDropped | src/blog/mod.rs:132-145 | a block end with no block open is dropped |
| Render.RewriteEvents | src/blog/mod.rs:118-157 | the rewriting loop computes the fold's output from the outside state |

## Left out

- File and directory I/O with tokio (src/blog/mod.rs:57-59, 70-72, 86-87, 102-104) is not modelled. File contents and directory entries are parameters, and a read failure is `None` or `EntryError`.
- YAML decoding with serde_yaml is not modelled. It is the `Decoder` parameter, a partial function onto title, date and summary.
- Markdown parsing and HTML serialization with pulldown-cmark (src/blog/mod.rs:106-113, 159) are not modelled. The rewrite takes the event stream and stops at the rewritten stream.
- Grammar lookup, theme loading and HTML generation with syntect (src/blog/mod.rs:114-116, 134-139) are not modelled. They are the `Highlighter` parameter, and the fixed theme is part of it.
- Slug.Lowercase: lowercases ASCII letters only. Rust's Unicode `to_lowercase` can change a string's length, so `Slug.DeriveLink`'s length claim holds only for this ASCII model.
- Repository.Extension: leaves out `Path::extension`'s special case for the name "..". A directory enumeration never yields that name, and it is not markdown either way.
- The `path.to_str().unwrap()` panic on a path that is not valid UTF-8 (src/blog/mod.rs:77, 92) is not modelled, because strings here are always Unicode.
- FrontMatter.ParseMetadata: a text without any "---" makes the source panic at `unwrap()` (src/blog/mod.rs:62). The model returns `MalformedDocument` instead.
- src/main.rs is not part of this model. It holds HTTP routing, the listener, tracing, JSON framing, and the two reads of a file per post request.
- Render.Run: a code block still open when the stream ends emits nothing. Its buffered text is lost. The parser always closes blocks, so this does not arise in practice.
- Render.Run: a code-block start inside an open block only replaces the language. The buffer keeps its text, as in the source (src/blog/mod.rs:125-131).
