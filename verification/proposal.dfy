/** Turning the completion text into a commit proposal and the proposal into
    a `git commit` command line. Both generator scripts share this logic:
    two independent searches, `/title:\s*(.*)/i` and `/description:\s*([\s\S]*)/i`,
    each trimmed, with a fixed fallback title. */
module Proposal {
  import opened Wrappers
  import opened Text

  const TitleKey := "title:"
  const DescriptionKey := "description:"
  const FallbackTitle := "chore: update commit"

  datatype CommitProposal = CommitProposal(title: string, description: string)

  /** `c` is what `\s*(.*)` captures right after `key` found at `i`, with the
      greedy white-space run ending at `p`: then the rest of that line. */
  ghost predicate LineCapturedAt(s: string, key: string, i: nat, p: nat, c: string) {
    var from := i + |key|;
    && from <= p <= |s|
    && Blank(s[from..p])
    && (p == |s| || !IsSpace(s[p]))
    && p + |c| <= |s|
    && s[p..p + |c|] == c
    && SingleLine(c)
    && (p + |c| == |s| || IsLineTerminator(s[p + |c|]))
  }

  /** `c` is what `\s*([\s\S]*)` captures right after `key` found at `i`, with
      the greedy white-space run ending at `p`: then everything after it. */
  ghost predicate RestCapturedAt(s: string, key: string, i: nat, p: nat, c: string) {
    var from := i + |key|;
    && from <= p <= |s|
    && Blank(s[from..p])
    && (p == |s| || !IsSpace(s[p]))
    && c == s[p..]
  }

  /** Group 1 of `/title:\s*(.*)/i` on `output`, or None when it does not match. */
  function TitleCapture(output: string): (c: Option<string>)
    ensures c.None? <==> forall j: nat :: !MatchesAt(output, j, TitleKey)
    ensures c.Some? ==> exists p :: LineCapturedAt(output, TitleKey, Find(output, TitleKey).value, p, c.value)
  {
    match Find(output, TitleKey)
    case None => None
    case Some(i) =>
      var p := SkipSpaces(output, i + |TitleKey|);
      var e := LineEnd(output, p);
      assert LineCapturedAt(output, TitleKey, i, p, output[p..e]);
      Some(output[p..e])
  }

  /** Group 1 of `/description:\s*([\s\S]*)/i` on `output`, or None when it does not match. */
  function DescriptionCapture(output: string): (c: Option<string>)
    ensures c.None? <==> forall j: nat :: !MatchesAt(output, j, DescriptionKey)
    ensures c.Some? ==> exists p :: RestCapturedAt(output, DescriptionKey, Find(output, DescriptionKey).value, p, c.value)
  {
    match Find(output, DescriptionKey)
    case None => None
    case Some(i) =>
      var p := SkipSpaces(output, i + |DescriptionKey|);
      assert RestCapturedAt(output, DescriptionKey, i, p, output[p..]);
      Some(output[p..])
  }

  /** The commit title: the trimmed capture, or the fallback when `title:`
      occurs nowhere. A present but blank title gives "", not the fallback. */
  function ExtractTitle(output: string): (t: string)
    ensures IsTrimmed(t) && SingleLine(t)
    ensures (forall j: nat :: !MatchesAt(output, j, TitleKey)) ==> t == FallbackTitle
    ensures (exists j: nat :: MatchesAt(output, j, TitleKey)) ==> t == Trim(TitleCapture(output).value)
  {
    match TitleCapture(output)
    case None => FallbackTitle
    case Some(c) =>
      TrimSingleLine(c);
      Trim(c)
  }

  /** The commit description: the trimmed rest of the text after the first
      `description:`, or "" when there is none. The white space `\s*` skips
      would be trimmed anyway, so it is the trimmed text right after the key. */
  function ExtractDescription(output: string): (d: string)
    ensures IsTrimmed(d)
    ensures (forall j: nat :: !MatchesAt(output, j, DescriptionKey)) ==> d == ""
    ensures Find(output, DescriptionKey).Some? ==>
      var i := Find(output, DescriptionKey).value;
      d == Trim(output[i + |DescriptionKey|..])
  {
    match DescriptionCapture(output)
    case None => ""
    case Some(c) =>
      var i := Find(output, DescriptionKey).value;
      var p := SkipSpaces(output, i + |DescriptionKey|);
      assert output[i + |DescriptionKey|..] == output[i + |DescriptionKey|..p] + c;
      TrimIgnoresBlankPrefix(output[i + |DescriptionKey|..p], c);
      Trim(c)
  }

  /** The two extractions run side by side; neither depends on the other. */
  function Parse(output: string): (p: CommitProposal)
    ensures p.title == ExtractTitle(output) && p.description == ExtractDescription(output)
  {
    CommitProposal(ExtractTitle(output), ExtractDescription(output))
  }

  const CommitPrefix := "git commit -m \""
  const SecondMessage := " -m \""

  /** The command line: the title always as the first `-m` message, the
      description as a second one only when it is non-empty. Plain
      concatenation, no shell escaping. */
  function CommitCommand(p: CommitProposal): string {
    if p.description != "" then CommitPrefix + p.title + "\"" + SecondMessage + p.description + "\""
    else CommitPrefix + p.title + "\""
  }

  /** Reads a command line back into its messages: the first `-m` message up
      to the first quote, then nothing or one more, non-empty, `-m` message. */
  function DecodeCommand(cmd: string): Option<CommitProposal> {
    if |cmd| < |CommitPrefix| || cmd[..|CommitPrefix|] != CommitPrefix then None
    else
      var rest := cmd[|CommitPrefix|..];
      match IndexOf(rest, '"')
      case None => None
      case Some(q) =>
        var tail := rest[q + 1..];
        if tail == "" then Some(CommitProposal(rest[..q], ""))
        else if |tail| > |SecondMessage| + 1 && tail[..|SecondMessage|] == SecondMessage && tail[|tail| - 1] == '"'
        then Some(CommitProposal(rest[..q], tail[|SecondMessage|..|tail| - 1]))
        else None
  }

  /** The command carries the title as its first message and the description
      as a second message exactly when the description is non-empty; with a
      quote-free title it can be read back. */
  lemma CommandRoundTrip(p: CommitProposal)
    requires '"' !in p.title
    ensures DecodeCommand(CommitCommand(p)) == Some(p)
  {
    if p.description == "" {
      DecodeSingle(CommitCommand(p), p.title);
    } else {
      DecodeDouble(CommitCommand(p), p.title, p.description);
    }
  }

  lemma DecodeSingle(cmd: string, title: string)
    requires '"' !in title && cmd == CommitPrefix + title + "\""
    ensures DecodeCommand(cmd) == Some(CommitProposal(title, ""))
  {
    var rest := title + "\"" + "";
    assert cmd == CommitPrefix + rest;
    PrefixSplit(rest);
    QuoteSplit(title, "");
  }

  lemma DecodeDouble(cmd: string, title: string, d: string)
    requires '"' !in title && d != ""
    requires cmd == CommitPrefix + title + "\"" + SecondMessage + d + "\""
    ensures DecodeCommand(cmd) == Some(CommitProposal(title, d))
  {
    var tail := SecondMessage + d + "\"";
    var rest := title + "\"" + tail;
    assert cmd == CommitPrefix + rest;
    PrefixSplit(rest);
    QuoteSplit(title, tail);
    SecondSplit(d);
  }

  lemma PrefixSplit(rest: string)
    ensures |CommitPrefix + rest| >= |CommitPrefix|
    ensures (CommitPrefix + rest)[..|CommitPrefix|] == CommitPrefix
    ensures (CommitPrefix + rest)[|CommitPrefix|..] == rest
  {
  }

  /** The first quote of `title"tail` is the one after a quote-free title. */
  lemma QuoteSplit(title: string, tail: string)
    requires '"' !in title
    ensures IndexOf(title + "\"" + tail, '"') == Some(|title|)
    ensures (title + "\"" + tail)[..|title|] == title
    ensures (title + "\"" + tail)[|title| + 1..] == tail
  {
    var rest := title + "\"" + tail;
    assert rest[..|title|] == title;
    assert rest[|title|] == '"';
    assert rest[|title| + 1..] == tail;
  }

  lemma SecondSplit(d: string)
    requires d != ""
    ensures var tail := SecondMessage + d + "\"";
      && |tail| > |SecondMessage| + 1
      && tail[..|SecondMessage|] == SecondMessage
      && tail[|tail| - 1] == '"'
      && tail[|SecondMessage|..|tail| - 1] == d
  {
    var tail := SecondMessage + d + "\"";
    assert tail[..|SecondMessage|] == SecondMessage;
    assert tail[|SecondMessage|..|tail| - 1] == d;
  }

  /** Without escaping, a title holding a quote collides with a two-message
      proposal: the command line does not determine the proposal. */
  lemma CommandAmbiguousWithQuotes()
    ensures CommitCommand(CommitProposal("a\" -m \"b", "")) == CommitCommand(CommitProposal("a", "b"))
    ensures CommitProposal("a\" -m \"b", "") != CommitProposal("a", "b")
  {
  }

  /** The response layout the prompt asks for: a title line, then the
      description key followed by anything. */
  function Layout(title: string, rest: string): string {
    "title: " + title + "\n" + DescriptionKey + rest
  }

  /** A proposal written in that layout, one space after each key. */
  function Render(p: CommitProposal): string {
    Layout(p.title, " " + p.description)
  }

  /** A title the layout can carry: one non-blank trimmed line not
      containing the description key. */
  predicate RenderableTitle(t: string) {
    t != "" && IsTrimmed(t) && SingleLine(t) && Find(t, DescriptionKey) == None
  }

  /** A text that begins with the title key written in any case finds it
      at its start. */
  lemma TitleKeyAtStart(o: string, key: string)
    requires |key| == |TitleKey| && MatchesAt(key, 0, TitleKey)
    requires |o| >= |key| && o[..|key|] == key
    ensures Find(o, TitleKey) == Some(0)
  {
    assert MatchesAt(o, 0, TitleKey) by {
      forall k | 0 <= k < |TitleKey| ensures LowerChar(o[k]) == TitleKey[k] {
        assert o[k] == key[k];
      }
    }
  }


  /** A text that starts with the title key in any case, then white space,
      then a trimmed single line `x` that ends the text or its line, has
      title `x`. */
  lemma TitleAfterKey(o: string, key: string, pad: string, x: string, tail: string)
    requires o == key + pad + x + tail
    requires |key| == |TitleKey| && MatchesAt(key, 0, TitleKey)
    requires Blank(pad) && IsTrimmed(x) && SingleLine(x)
    requires tail == "" || (x != "" && IsLineTerminator(tail[0]))
    ensures ExtractTitle(o) == x
  {
    var from := |TitleKey|;
    assert o[..from] == key && o[from..] == pad + (x + tail);
    TitleKeyAtStart(o, key);
    LeadingSpacesOfPadded(pad, x + tail);
    var p := SkipSpaces(o, from);
    assert p == from + |pad|;
    TitleLineEnd(o, p, x, tail);
    assert TitleCapture(o) == Some(x);
    TrimFixedIffTrimmed(x);
  }

  lemma TitleLineEnd(o: string, p: nat, x: string, tail: string)
    requires p <= |o| && o[p..] == x + tail && SingleLine(x)
    requires tail == "" || IsLineTerminator(tail[0])
    ensures LineEnd(o, p) == p + |x| && o[p..p + |x|] == x
  {
    assert o[p..p + |x|] == (x + tail)[..|x|] == x;
    if tail == "" {
      LineEndOfSingleLine(o, p);
    } else {
      assert o[p + |x|] == (x + tail)[|x|] == tail[0];
      LineEndAt(o, p, p + |x|);
    }
  }

  /** Parsing a rendered `title: X` line gives back `X`. */
  lemma TitleOfRenderedLine(x: string)
    requires IsTrimmed(x) && SingleLine(x)
    ensures ExtractTitle("title: " + x) == x
  {
    assert MatchesAt(TitleKey, 0, TitleKey);
    TitleAfterKey("title: " + x, TitleKey, " ", x, "");
  }

  lemma {:induction false} LineEndOfSingleLine(s: string, from: nat)
    requires from <= |s| && SingleLine(s[from..])
    ensures LineEnd(s, from) == |s|
    decreases |s| - from
  {
    if from < |s| {
      assert s[from] == s[from..][0];
      assert s[from + 1..] == s[from..][1..];
      LineEndOfSingleLine(s, from + 1);
    }
  }

  /** The line end seen from `from` is the first line terminator after it. */
  lemma {:induction false} LineEndAt(s: string, from: nat, e: nat)
    requires from <= e < |s| && IsLineTerminator(s[e])
    requires SingleLine(s[from..e])
    ensures LineEnd(s, from) == e
    decreases e - from
  {
    if from < e {
      assert s[from] == s[from..e][0];
      assert s[from + 1..e] == s[from..e][1..];
      LineEndAt(s, from + 1, e);
    }
  }

  /** A lower-case key written literally is found where it was written. */
  lemma KeyAt(pre: string, key: string, post: string)
    requires forall k :: 0 <= k < |key| ==> LowerChar(key[k]) == key[k]
    ensures MatchesAt(pre + key + post, |pre|, key)
  {
    var o := pre + key + post;
    forall k | 0 <= k < |key| ensures LowerChar(o[|pre| + k]) == key[k] {
      assert o[|pre| + k] == key[k];
    }
  }

  lemma KeysAreLowerCase()
    ensures forall k :: 0 <= k < |DescriptionKey| ==> LowerChar(DescriptionKey[k]) == DescriptionKey[k]
    ensures forall k :: 0 <= k < |TitleKey| ==> LowerChar(TitleKey[k]) == TitleKey[k]
  {
  }

  /** In the layout, the title line is found and captured whole. */
  lemma TitleOfLayout(t: string, rest: string)
    requires RenderableTitle(t)
    ensures ExtractTitle(Layout(t, rest)) == t
  {
    assert MatchesAt(TitleKey, 0, TitleKey);
    TitleAfterKey(Layout(t, rest), TitleKey, " ", t, "\n" + DescriptionKey + rest);
  }

  /** In the layout, the first `description:` is the one after the title line. */
  lemma DescriptionKeyAfterTitle(t: string, rest: string)
    requires RenderableTitle(t)
    ensures Find(Layout(t, rest), DescriptionKey) == Some(8 + |t|)
  {
    var o := Layout(t, rest);
    var at := 8 + |t|;
    assert MatchesAt(o, at, DescriptionKey) by {
      KeysAreLowerCase();
      KeyAt("title: " + t + "\n", DescriptionKey, rest);
    }
    forall j: nat | j < at ensures !MatchesAt(o, j, DescriptionKey) {
      NoEarlierDescriptionKey(t, rest, j);
    }
    FindIsFirstMatch(o, DescriptionKey, at);
  }

  lemma FindIsFirstMatch(text: string, pat: string, at: nat)
    requires MatchesAt(text, at, pat)
    requires forall j: nat :: j < at ==> !MatchesAt(text, j, pat)
    ensures Find(text, pat) == Some(at)
  {
  }

  lemma NoEarlierDescriptionKey(t: string, rest: string, j: nat)
    requires RenderableTitle(t)
    requires j < 8 + |t|
    ensures !MatchesAt(Layout(t, rest), j, DescriptionKey)
  {
    var o := Layout(t, rest);
    assert o == "title: " + t + "\n" + DescriptionKey + rest;
    assert DescriptionKey[0] == 'd';
    if j < 7 {
      assert o[j] == "title: "[j];
      assert LowerChar(o[j]) != 'd';
    } else if j + |DescriptionKey| <= 7 + |t| {
      assert !MatchesAt(t, j - 7, DescriptionKey);
      var k :| 0 <= k < |DescriptionKey| && LowerChar(t[j - 7 + k]) != DescriptionKey[k];
      assert o[j + k] == t[j - 7 + k];
    } else {
      var k := 7 + |t| - j;
      assert 0 <= k < |DescriptionKey|;
      assert o[j + k] == '\n';
      assert LowerChar(o[j + k]) == '\n';
      assert DescriptionKey[k] != '\n';
    }
  }

  /** Parsing the layout gives its title and the trimmed text after the
      description key. */
  lemma ParseLayout(t: string, rest: string)
    requires RenderableTitle(t)
    ensures Parse(Layout(t, rest)) == CommitProposal(t, Trim(rest))
  {
    TitleOfLayout(t, rest);
    DescriptionKeyAfterTitle(t, rest);
    assert Layout(t, rest)[8 + |t| + |DescriptionKey|..] == rest;
  }

  /** Rendering a proposal and parsing it back gives the same proposal. */
  lemma ParseRender(p: CommitProposal)
    requires RenderableTitle(p.title) && IsTrimmed(p.description)
    ensures Parse(Render(p)) == p
  {
    ParseLayout(p.title, " " + p.description);
    TrimPadded(" ", p.description, "");
    assert " " + p.description + "" == " " + p.description;
  }

  /** A title with no `d` in any case cannot contain the description key. */
  lemma NoDescriptionKeyWithoutD(t: string)
    requires forall k :: 0 <= k < |t| ==> LowerChar(t[k]) != 'd'
    ensures Find(t, DescriptionKey) == None
  {
    forall j: nat ensures !MatchesAt(t, j, DescriptionKey) {
      if j < |t| {
        assert DescriptionKey[0] == 'd';
      }
    }
  }

  /** A layout response whose description key is followed by white space
      only gives a one-message command. */
  lemma SingleMessageResponse(t: string, ws: string)
    requires RenderableTitle(t) && Blank(ws)
    ensures CommitCommand(Parse(Layout(t, ws))) == CommitPrefix + t + "\""
  {
    ParseLayout(t, ws);
    BlankTrimsToEmpty(ws);
  }

  /** A layout response with a non-blank description gives a two-message
      command whose second message is the trimmed description. */
  lemma TwoMessageResponse(t: string, rest: string)
    requires RenderableTitle(t) && !Blank(rest)
    ensures CommitCommand(Parse(Layout(t, rest))) == CommitPrefix + t + "\"" + SecondMessage + Trim(rest) + "\""
  {
    ParseLayout(t, rest);
    TrimEmptyIffBlank(rest);
  }

  /** `\s*` crosses line ends: a bare `title:` line takes the next line as the title. */
  lemma BareTitleLineTakesNextLine(x: string)
    requires IsTrimmed(x) && SingleLine(x)
    ensures ExtractTitle("title:\n" + x) == x
  {
    assert MatchesAt(TitleKey, 0, TitleKey);
    TitleAfterKey("title:\n" + x, TitleKey, "\n", x, "");
  }

  /** A key followed by nothing but white space gives an empty title, not the fallback. */
  lemma BlankTitleIsEmpty()
    ensures ExtractTitle("Title:  ") == ""
  {
    assert MatchesAt("Title:", 0, TitleKey);
    TitleAfterKey("Title:  ", "Title:", "  ", "", "");
  }
}
