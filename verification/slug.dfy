/** The derived `link` of a post: its title lowercased, every space turned
    into a hyphen, then a hyphen and the date appended verbatim. */
module Slug {

  /** ASCII lowercasing of one character: the result is never an upper-case
      ASCII letter, it is a lower-case one exactly when the input is a letter
      of either case, only upper-case letters change and each keeps its place
      in the alphabet, and spaces and hyphens are kept (so the space-to-hyphen
      step sees every space of the title). */
  function AsciiLower(c: char): (r: char)
    ensures !('A' <= r <= 'Z')
    ensures 'a' <= r <= 'z' <==> 'a' <= c <= 'z' || 'A' <= c <= 'Z'
    ensures r != c ==> 'A' <= c <= 'Z'
    ensures 'A' <= c <= 'Z' ==> r as int - 'a' as int == c as int - 'A' as int
    ensures r == ' ' <==> c == ' '
    ensures r == '-' <==> c == '-'
  {
    if 'A' <= c <= 'Z' then (c as int + 32) as char else c
  }

  /** What one title character becomes in the link. */
  function SlugChar(c: char): char {
    if c == ' ' then '-' else AsciiLower(c)
  }

  /** `to_lowercase`, restricted to ASCII. */
  function Lowercase(s: string): (r: string)
    ensures |r| == |s|
    ensures forall i :: 0 <= i < |s| ==> r[i] == AsciiLower(s[i])
  {
    if s == [] then [] else [AsciiLower(s[0])] + Lowercase(s[1..])
  }

  /** `replace(" ", "-")`: every space, not only the first, becomes a hyphen. */
  function ReplaceSpaces(s: string): (r: string)
    ensures |r| == |s|
    ensures forall i :: 0 <= i < |s| ==> r[i] == if s[i] == ' ' then '-' else s[i]
    ensures ' ' !in r
  {
    if s == [] then [] else [if s[0] == ' ' then '-' else s[0]] + ReplaceSpaces(s[1..])
  }

  /** The title part of a link. */
  function Slugify(title: string): string {
    ReplaceSpaces(Lowercase(title))
  }

  /** The link of a post with the given title and date. Each title character
      is mapped on its own, the separator sits right after the title, and the
      date follows untouched. */
  function DeriveLink(title: string, date: string): (link: string)
    ensures |link| == |title| + 1 + |date|
    ensures forall i :: 0 <= i < |title| ==> link[i] == SlugChar(title[i])
    ensures forall i :: 0 <= i < |title| ==> link[i] != ' '
    ensures link[|title|] == '-'
    ensures link[|title| + 1..] == date
  {
    Slugify(title) + "-" + date
  }

  /** The worked example: the title "Hello World", given by its two words
      around the space, with the date "2024-01-01". */
  lemma HelloWorldLink(title: string, date: string)
    requires |title| == 11 && title[5] == ' '
    requires title[..5] == "Hello" && title[6..] == "World"
    requires date == "2024-01-01"
    ensures DeriveLink(title, date) == "hello-world-2024-01-01"
  {
  }

  /** A link holds a space only where the date does. */
  lemma LinkHasNoSpaces(title: string, date: string)
    requires ' ' !in date
    ensures ' ' !in DeriveLink(title, date)
  {
  }

  /** The link ends with "-" followed by the date. */
  lemma LinkEndsWithDate(title: string, date: string)
    ensures var link := DeriveLink(title, date);
      link[|link| - |date| - 1..] == "-" + date
  {
  }

  /** Two titles of one length give the same link for a date exactly when
      they agree character by character once lowercased and hyphenated: titles
      that differ only in ASCII case, or in a space where the other has a
      hyphen, collide. */
  lemma LinkCollision(t1: string, t2: string, date: string)
    requires |t1| == |t2|
    ensures DeriveLink(t1, date) == DeriveLink(t2, date)
        <==> forall i :: 0 <= i < |t1| ==> SlugChar(t1[i]) == SlugChar(t2[i])
  {
  }

  /** For one title, the link determines the date. */
  lemma LinkDeterminesDate(title: string, d1: string, d2: string)
    requires DeriveLink(title, d1) == DeriveLink(title, d2)
    ensures d1 == d2
  {
  }

  /** A title already in link form is its own slug, so a post titled
      "hello-world" collides with one titled "Hello World" on the same date. */
  lemma SlugifyIdempotent(title: string)
    ensures Slugify(Slugify(title)) == Slugify(title)
  {
  }
}
