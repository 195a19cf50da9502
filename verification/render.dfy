/** The code-block rewrite of the markdown renderer: a fold over the parser's
    event stream that buffers the text of each code block and replaces the
    whole block by one highlighted HTML fragment. Every other event passes
    through unchanged. */
module Render {
  import opened Results

  datatype CodeBlockKind = Indented | Fenced(info: string)

  /** Opening tags; only code blocks are told apart. */
  datatype Tag = CodeBlock(kind: CodeBlockKind) | OtherTag(name: string)

  /** Closing tags; only code blocks are told apart. */
  datatype TagEnd = CodeBlockEnd | OtherTagEnd(name: string)

  /** The markdown parser's events. */
  datatype Event =
    | Start(tag: Tag)
    | End(tagEnd: TagEnd)
    | Text(text: string)
    | Code(code: string)
    | Html(html: string)
    | InlineHtml(html: string)
    | FootnoteReference(footnote: string)
    | SoftBreak
    | HardBreak
    | Rule
    | TaskListMarker(checked: bool)

  predicate IsCodeBlockEvent(e: Event) {
    (e.Start? && e.tag.CodeBlock?) || (e.End? && e.tagEnd.CodeBlockEnd?)
  }

  predicate NoCodeBlockEvents(events: seq<Event>) {
    forall j :: 0 <= j < |events| ==> !IsCodeBlockEvent(events[j])
  }

  predicate AllText(events: seq<Event>) {
    forall j :: 0 <= j < |events| ==> events[j].Text?
  }

  /** The texts of the `Text` events, concatenated in order. */
  function TextOf(events: seq<Event>): string {
    if events == [] then ""
    else (if events[0].Text? then events[0].text else "") + TextOf(events[1..])
  }

  /** A grammar the highlighter can use. */
  datatype Syntax = PlainText | Grammar(name: string)

  /** The syntax highlighter: grammar lookup by language token, and the
      rendering of a buffer with a grammar, which may fail. */
  datatype Highlighter = Highlighter(
    findByToken: string -> Option<Syntax>,
    highlight: (string, Syntax) -> Option<string>)

  /** The language a code block declares: a fenced block's whole info string
      (even an empty one), nothing for an indented block. */
  function LangOf(kind: CodeBlockKind): (r: Option<string>)
    ensures r.Some? <==> kind.Fenced?
    ensures kind.Fenced? ==> r.value == kind.info
  {
    match kind
    case Fenced(info) => Some(info)
    case Indented => None
  }

  /** The grammar for a block: the one found by its token, else plain text.
      A block with no language, or one the highlighter does not know, is
      highlighted as plain text rather than rejected; any other grammar is
      exactly the one the token finds. */
  function SyntaxFor(h: Highlighter, lang: Option<string>): (s: Syntax)
    ensures lang.None? || h.findByToken(lang.value).None? ==> s == PlainText
    ensures lang.Some? && h.findByToken(lang.value).Some? ==> s == h.findByToken(lang.value).value
    ensures s != PlainText ==> lang.Some? && h.findByToken(lang.value) == Some(s)
  {
    match lang
    case None => PlainText
    case Some(token) =>
      match h.findByToken(token)
      case Some(syntax) => syntax
      case None => PlainText
  }

  /** The fold's state: inside a code block or not, the block's language,
      and the text buffered so far. */
  datatype State = State(inCodeBlock: bool, lang: Option<string>, buffer: string)

  const Outside: State := State(false, None, "")

  /** Outside a code block nothing is remembered. */
  predicate Consistent(st: State) {
    !st.inCodeBlock ==> st == Outside
  }

  /** The state after some events and the events they produced. */
  datatype Output = Output(state: State, events: seq<Event>)

  /** What one event does to the state and to the output. Only closing an
      open block can fail, and then only because highlighting failed. A step
      emits at most one event and never a code-block start or end: a block
      start emits nothing and records the block's language, keeping the
      buffer; a stray block end emits nothing and changes nothing; text inside a block is
      buffered; closing a block emits the highlighter's fragment of the
      buffer in the block's grammar, fails exactly when the highlighter
      does, and leaves nothing remembered; every other event goes through
      unchanged with the state as it was. Afterwards the fold is inside a
      block exactly when the event opened one, or one was open and the event
      did not close it. */
  function Step(h: Highlighter, st: State, e: Event): (r: Result<Output>)
    ensures r.Err? ==> r.error == HighlightError && e == End(CodeBlockEnd) && st.inCodeBlock
    ensures r.Ok? ==> |r.value.events| <= 1 && NoCodeBlockEvents(r.value.events)
    ensures r.Ok? && r.value.events != [] ==>
      r.value.events[0] == e || (e == End(CodeBlockEnd) && r.value.events[0].Html?)
    ensures e.Text? && st.inCodeBlock ==>
      r.Ok? && r.value.events == [] && r.value.state == st.(buffer := st.buffer + e.text)
    ensures e == End(CodeBlockEnd) && !st.inCodeBlock ==> r == Ok(Output(st, []))
    ensures e == End(CodeBlockEnd) && st.inCodeBlock && r.Ok? ==> r.value.state == Outside
    ensures e == End(CodeBlockEnd) && st.inCodeBlock ==>
      && (r.Err? <==> h.highlight(st.buffer, SyntaxFor(h, st.lang)).None?)
      && (r.Ok? ==> r.value.events == [Html(h.highlight(st.buffer, SyntaxFor(h, st.lang)).value)])
    ensures e.Start? && e.tag.CodeBlock? ==>
      && r.Ok? && r.value.events == []
      && r.value.state.lang == LangOf(e.tag.kind) && r.value.state.buffer == st.buffer
    ensures !IsCodeBlockEvent(e) && !(e.Text? && st.inCodeBlock) ==> r == Ok(Output(st, [e]))
    ensures r.Ok? ==> (r.value.state.inCodeBlock <==>
      (e.Start? && e.tag.CodeBlock?) || (st.inCodeBlock && !(e.End? && e.tagEnd.CodeBlockEnd?)))
  {
    match e
    case Start(CodeBlock(kind)) =>
      Ok(Output(State(true, LangOf(kind), st.buffer), []))
    case End(CodeBlockEnd) =>
      if st.inCodeBlock then
        match h.highlight(st.buffer, SyntaxFor(h, st.lang))
        case None => Err(HighlightError)
        case Some(fragment) => Ok(Output(Outside, [Html(fragment)]))
      else
        Ok(Output(st, []))
    case Text(t) =>
      if st.inCodeBlock then Ok(Output(st.(buffer := st.buffer + t), []))
      else Ok(Output(st, [e]))
    case _ =>
      Ok(Output(st, [e]))
  }

  /** The fold over a stream of events, stopping at the first highlighting
      failure. The output never holds a code-block start or end, has at most
      one event per input event, and each of its events is either an input
      event or a highlighted fragment. */
  function Run(h: Highlighter, st: State, events: seq<Event>): (r: Result<Output>)
    ensures r.Err? ==> r.error == HighlightError
    ensures r.Ok? && Consistent(st) ==> Consistent(r.value.state)
    ensures r.Ok? ==> NoCodeBlockEvents(r.value.events)
    ensures r.Ok? ==> |r.value.events| <= |events|
    ensures r.Ok? ==> forall j :: 0 <= j < |r.value.events| ==>
      r.value.events[j].Html? || r.value.events[j] in events
    decreases |events|
  {
    if events == [] then Ok(Output(st, []))
    else
      var first :- Step(h, st, events[0]);
      assert forall e :: e in events[1..] ==> e in events;
      var rest :- Run(h, first.state, events[1..]);
      Ok(Output(rest.state, first.events + rest.events))
  }

  /** The rewritten events of a stream read from a given state. */
  function Rewrite(h: Highlighter, st: State, events: seq<Event>): Result<seq<Event>> {
    match Run(h, st, events)
    case Ok(o) => Ok(o.events)
    case Err(e) => Err(e)
  }

  /** The rewrite of a whole document, which starts outside any code block. */
  function RewriteCodeBlocks(h: Highlighter, events: seq<Event>): Result<seq<Event>> {
    Rewrite(h, Outside, events)
  }

  /** Running over a concatenation runs over the first part, then over the
      second from the state the first part left, and joins the outputs. */
  lemma {:induction false} RunAppend(h: Highlighter, st: State, a: seq<Event>, b: seq<Event>)
    ensures Run(h, st, a + b) ==
      match Run(h, st, a)
      case Err(e) => Err(e)
      case Ok(o1) =>
        match Run(h, o1.state, b)
        case Err(e) => Err(e)
        case Ok(o2) => Ok(Output(o2.state, o1.events + o2.events))
    decreases |a|
  {
    if a == [] {
      assert a + b == b;
      if Run(h, st, b).Ok? {
        assert [] + Run(h, st, b).value.events == Run(h, st, b).value.events;
      }
    } else {
      assert (a + b)[0] == a[0];
      assert (a + b)[1..] == a[1..] + b;
      var step := Step(h, st, a[0]);
      if step.Ok? {
        var first := step.value;
        RunAppend(h, first.state, a[1..], b);
        var r1 := Run(h, first.state, a[1..]);
        if r1.Ok? {
          var r2 := Run(h, r1.value.state, b);
          if r2.Ok? {
            assert first.events + (r1.value.events + r2.value.events)
              == (first.events + r1.value.events) + r2.value.events;
          }
        }
      }
    }
  }

  /** Outside a code block, a stream without code-block events goes through
      untouched and leaves the fold outside. */
  lemma {:induction false} PassThrough(h: Highlighter, events: seq<Event>)
    requires NoCodeBlockEvents(events)
    ensures Run(h, Outside, events) == Ok(Output(Outside, events))
    decreases |events|
  {
    if events != [] {
      assert NoCodeBlockEvents(events[1..]) by {
        forall j | 0 <= j < |events| - 1
          ensures !IsCodeBlockEvent(events[1..][j])
        {
          assert events[1..][j] == events[j + 1];
        }
      }
      PassThrough(h, events[1..]);
      assert !IsCodeBlockEvent(events[0]);
      assert [events[0]] + events[1..] == events;
    }
  }

  /** A document without code blocks is rendered from its own events. */
  lemma RewriteWithoutCodeBlocks(h: Highlighter, events: seq<Event>)
    requires NoCodeBlockEvents(events)
    ensures RewriteCodeBlocks(h, events) == Ok(events)
  {
    PassThrough(h, events);
  }

  /** Inside a code block, text events only grow the buffer. */
  lemma {:induction false} BufferTexts(h: Highlighter, lang: Option<string>, buf: string, texts: seq<Event>)
    requires AllText(texts)
    ensures Run(h, State(true, lang, buf), texts) == Ok(Output(State(true, lang, buf + TextOf(texts)), []))
    decreases |texts|
  {
    if texts == [] {
      assert buf + "" == buf;
    } else {
      var t := texts[0].text;
      assert AllText(texts[1..]) by {
        forall j | 0 <= j < |texts| - 1
          ensures texts[1..][j].Text?
        {
          assert texts[1..][j] == texts[j + 1];
        }
      }
      BufferTexts(h, lang, buf + t, texts[1..]);
      assert buf + t + TextOf(texts[1..]) == buf + TextOf(texts);
    }
  }

  /** A code block read from outside becomes the one fragment the
      highlighter makes of its concatenated text with the grammar of its
      language, and the fold is outside again; if highlighting fails, the
      fold fails. */
  lemma CodeBlockBecomesHtml(h: Highlighter, kind: CodeBlockKind, texts: seq<Event>)
    requires AllText(texts)
    ensures Run(h, Outside, [Start(CodeBlock(kind))] + texts + [End(CodeBlockEnd)]) ==
      match h.highlight(TextOf(texts), SyntaxFor(h, LangOf(kind)))
      case None => Err(HighlightError)
      case Some(fragment) => Ok(Output(Outside, [Html(fragment)]))
  {
    var open := [Start(CodeBlock(kind))];
    var inside := State(true, LangOf(kind), "");
    assert Run(h, Outside, open) == Ok(Output(inside, [])) by {
      assert open[1..] == [];
    }
    BufferTexts(h, LangOf(kind), "", texts);
    assert "" + TextOf(texts) == TextOf(texts);
    RunAppend(h, Outside, open, texts);
    var none: seq<Event> := [];
    assert none + none == none;
    var close := [End(CodeBlockEnd)];
    assert close[1..] == [];
    RunAppend(h, Outside, open + texts, close);
    var fragment := h.highlight(TextOf(texts), SyntaxFor(h, LangOf(kind)));
    if fragment.Some? {
      assert [Html(fragment.value)] + [] == [Html(fragment.value)];
      assert [] + [Html(fragment.value)] == [Html(fragment.value)];
    }
  }

  /** An indented block, or a fenced one whose language the highlighter does
      not know, is highlighted as plain text rather than rejected. */
  lemma UnknownLanguageFallsBack(h: Highlighter, kind: CodeBlockKind, texts: seq<Event>)
    requires AllText(texts)
    requires kind.Indented? || h.findByToken(kind.info).None?
    ensures Run(h, Outside, [Start(CodeBlock(kind))] + texts + [End(CodeBlockEnd)]) ==
      match h.highlight(TextOf(texts), PlainText)
      case None => Err(HighlightError)
      case Some(fragment) => Ok(Output(Outside, [Html(fragment)]))
  {
    CodeBlockBecomesHtml(h, kind, texts);
  }

  /** A document made of plain events, one code block and anything after it
      renders as the plain events, the block's fragment and the rendering of
      the rest. A failure to highlight the block fails the whole document,
      whatever follows. */
  lemma DocumentWithOneBlock(h: Highlighter, pre: seq<Event>, kind: CodeBlockKind, texts: seq<Event>, post: seq<Event>)
    requires NoCodeBlockEvents(pre) && AllText(texts)
    ensures RewriteCodeBlocks(h, pre + [Start(CodeBlock(kind))] + texts + [End(CodeBlockEnd)] + post) ==
      match h.highlight(TextOf(texts), SyntaxFor(h, LangOf(kind)))
      case None => Err(HighlightError)
      case Some(fragment) => PrependAll(pre + [Html(fragment)], RewriteCodeBlocks(h, post))
  {
    var block := [Start(CodeBlock(kind))] + texts + [End(CodeBlockEnd)];
    var doc := pre + [Start(CodeBlock(kind))] + texts + [End(CodeBlockEnd)] + post;
    assert doc == pre + (block + post);
    PlainPrefix(h, pre, block + post);
    BlockThenRest(h, kind, texts, post);
    match h.highlight(TextOf(texts), SyntaxFor(h, LangOf(kind)))
    case None =>
    case Some(fragment) =>
      match Run(h, Outside, post)
      case Err(_) =>
      case Ok(o) =>
        assert Run(h, Outside, doc) == Ok(Output(o.state, pre + ([Html(fragment)] + o.events)));
        assert pre + ([Html(fragment)] + o.events) == (pre + [Html(fragment)]) + o.events;
  }

  /** Plain events in front of a document are copied in front of its
      rendering, and do not change whether it fails. */
  lemma PlainPrefix(h: Highlighter, pre: seq<Event>, rest: seq<Event>)
    requires NoCodeBlockEvents(pre)
    ensures Run(h, Outside, pre + rest) ==
      match Run(h, Outside, rest)
      case Err(e) => Err(e)
      case Ok(o) => Ok(Output(o.state, pre + o.events))
  {
    PassThrough(h, pre);
    RunAppend(h, Outside, pre, rest);
  }

  /** A code block followed by the rest of a document renders as the
      block's fragment followed by the rendering of the rest. */
  lemma BlockThenRest(h: Highlighter, kind: CodeBlockKind, texts: seq<Event>, post: seq<Event>)
    requires AllText(texts)
    ensures Run(h, Outside, [Start(CodeBlock(kind))] + texts + [End(CodeBlockEnd)] + post) ==
      match h.highlight(TextOf(texts), SyntaxFor(h, LangOf(kind)))
      case None => Err(HighlightError)
      case Some(fragment) =>
        match Run(h, Outside, post)
        case Err(e) => Err(e)
        case Ok(o) => Ok(Output(o.state, [Html(fragment)] + o.events))
  {
    var block := [Start(CodeBlock(kind))] + texts + [End(CodeBlockEnd)];
    CodeBlockBecomesHtml(h, kind, texts);
    RunAppend(h, Outside, block, post);
  }

  /** A block end with no block open is dropped. */
  lemma StrayEndDropped(h: Highlighter, rest: seq<Event>)
    ensures RewriteCodeBlocks(h, [End(CodeBlockEnd)] + rest) == RewriteCodeBlocks(h, rest)
  {
    var events := [End(CodeBlockEnd)] + rest;
    assert events[0] == End(CodeBlockEnd) && events[1..] == rest;
    if Run(h, Outside, rest).Ok? {
      assert [] + Run(h, Outside, rest).value.events == Run(h, Outside, rest).value.events;
    }
  }

  /** One step of the rewrite. */
  lemma RewriteStep(h: Highlighter, st: State, events: seq<Event>, i: nat)
    requires i < |events|
    ensures Rewrite(h, st, events[i..]) ==
      match Step(h, st, events[i])
      case Err(e) => Err(e)
      case Ok(o) => PrependAll(o.events, Rewrite(h, o.state, events[i + 1..]))
  {
    assert events[i..][0] == events[i] && events[i..][1..] == events[i + 1..];
  }

  /** The rewriting loop: buffer code-block text, emit one highlighted
      fragment when the block ends, pass everything else on. */
  method RewriteEvents(h: Highlighter, events: seq<Event>) returns (r: Result<seq<Event>>)
    ensures r == RewriteCodeBlocks(h, events)
  {
    var newP: seq<Event> := [];
    var toHighlight := "";
    var inCodeBlock := false;
    var currentLang: Option<string> := None;
    var i := 0;
    assert events[i..] == events;
    PrependNothing(RewriteCodeBlocks(h, events));
    while i < |events|
      invariant 0 <= i <= |events|
      invariant RewriteCodeBlocks(h, events)
        == PrependAll(newP, Rewrite(h, State(inCodeBlock, currentLang, toHighlight), events[i..]))
    {
      var st := State(inCodeBlock, currentLang, toHighlight);
      var e := events[i];
      RewriteStep(h, st, events, i);
      var step := Step(h, st, e);
      if step.Ok? {
        PrependAllTwice(newP, step.value.events, Rewrite(h, step.value.state, events[i + 1..]));
      }
      assert newP + [] == newP;
      if e.Start? && e.tag.CodeBlock? {
        inCodeBlock := true;
        currentLang := LangOf(e.tag.kind);
      } else if e.End? && e.tagEnd.CodeBlockEnd? {
        if inCodeBlock {
          var highlighted := h.highlight(toHighlight, SyntaxFor(h, currentLang));
          if highlighted.None? {
            return Err(HighlightError);
          }
          newP := newP + [Html(highlighted.value)];
          toHighlight := "";
          inCodeBlock := false;
          currentLang := None;
        }
      } else if e.Text? {
        if inCodeBlock {
          toHighlight := toHighlight + e.text;
        } else {
          newP := newP + [e];
        }
      } else {
        newP := newP + [e];
      }
      i := i + 1;
    }
    assert events[i..] == [];
    PrependOntoNothing(newP);
    return Ok(newP);
  }
}
