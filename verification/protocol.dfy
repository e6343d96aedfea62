/** The line-oriented text protocol written to the serial link: one command
    per line, `X:<delta>`, `Y:<delta>` or `BTN:<value>`, each ended by a
    newline. The parser is the receiving side's reading of the same format;
    proving it inverts the renderer shows the stream is unambiguous. */
module Protocol {
  import opened Wrappers
  import opened Decimal

  datatype Axis = X | Y

  datatype Command =
    | Move(axis: Axis, delta: int)
    | Button(value: int)

  function Tag(c: Command): string {
    match c
    case Move(X, _) => "X:"
    case Move(Y, _) => "Y:"
    case Button(_) => "BTN:"
  }

  function Payload(c: Command): int {
    match c
    case Move(_, d) => d
    case Button(v) => v
  }

  /** One newline-terminated, pure-ASCII line per command; the newline is its
      only line break, and the line reads back as the command. */
  function Render(c: Command): (line: string)
    ensures |line| >= 4 && line[|line| - 1] == '\n'
    ensures forall i :: 0 <= i < |line| - 1 ==> line[i] != '\n'
    ensures forall i :: 0 <= i < |line| ==> line[i] < 128 as char
  {
    Tag(c) + IntToString(Payload(c)) + "\n"
  }

  predicate HasPrefix(s: string, p: string) {
    |p| <= |s| && s[..|p|] == p
  }

  /** Reads one newline-terminated line back into a command. */
  function ParseLine(line: string): (r: Option<Command>)
  {
    if |line| == 0 || line[|line| - 1] != '\n' then None
    else
      var body := line[..|line| - 1];
      if HasPrefix(body, "X:") then
        match ParseInt(body[2..])
        case Some(d) => Some(Move(X, d))
        case None => None
      else if HasPrefix(body, "Y:") then
        match ParseInt(body[2..])
        case Some(d) => Some(Move(Y, d))
        case None => None
      else if HasPrefix(body, "BTN:") then
        match ParseInt(body[4..])
        case Some(v) => Some(Button(v))
        case None => None
      else None
  }

  /** A tag followed by a rendered integer and a newline reads back with
      the integer. */
  lemma ParseTaggedLine(tag: string, n: int)
    requires tag == "X:" || tag == "Y:" || tag == "BTN:"
    ensures var line := tag + IntToString(n) + "\n";
      && line[..|line| - 1] == tag + IntToString(n)
      && (tag + IntToString(n))[..|tag|] == tag
      && (tag + IntToString(n))[|tag|..] == IntToString(n)
      && ParseInt(IntToString(n)) == Some(n)
  {
    ParseIntRoundTrip(n);
  }

  lemma ParseLineRoundTrip(c: Command)
    ensures ParseLine(Render(c)) == Some(c)
  {
    var tag := Tag(c);
    ParseTaggedLine(tag, Payload(c));
    var body := tag + IntToString(Payload(c));
    assert Render(c) == body + "\n";
    assert body[0] == tag[0];
    match c
    case Move(X, _) =>
      assert HasPrefix(body, "X:");
    case Move(Y, _) =>
      assert !HasPrefix(body, "X:") && HasPrefix(body, "Y:");
    case Button(_) =>
      assert !HasPrefix(body, "X:") && !HasPrefix(body, "Y:") && HasPrefix(body, "BTN:");
  }

  /** Only rendered lines are accepted: the format has a single spelling for
      each command. */
  lemma ParseLineCanonical(line: string)
    requires ParseLine(line).Some?
    ensures Render(ParseLine(line).value) == line
  {
    var c := ParseLine(line).value;
    var body := line[..|line| - 1];
    var n := |Tag(c)|;
    assert body[..n] == Tag(c);
    ParseIntCanonical(body[n..]);
    assert body == body[..n] + body[n..];
    assert line == body + "\n";
  }

  /** Number of line breaks in a text. */
  function Newlines(s: string): nat
    decreases |s|
  {
    if |s| == 0 then 0 else (if s[0] == '\n' then 1 else 0) + Newlines(s[1..])
  }

  lemma {:induction false} NewlinesAppend(a: string, b: string)
    ensures Newlines(a + b) == Newlines(a) + Newlines(b)
    decreases |a|
  {
    if |a| > 0 {
      assert (a + b)[0] == a[0];
      assert (a + b)[1..] == a[1..] + b;
      NewlinesAppend(a[1..], b);
    } else {
      assert a + b == b;
    }
  }

  lemma {:induction false} NoNewlines(s: string)
    requires forall i :: 0 <= i < |s| ==> s[i] != '\n'
    ensures Newlines(s) == 0
    decreases |s|
  {
    if |s| > 0 {
      NoNewlines(s[1..]);
    }
  }

  /** A rendered command is exactly one line. */
  lemma RenderIsOneLine(c: Command)
    ensures Newlines(Render(c)) == 1
  {
    var line := Render(c);
    var body := line[..|line| - 1];
    NoNewlines(body);
    assert line == body + "\n";
    NewlinesAppend(body, "\n");
  }

  /** The wire text of a command sequence: its lines, concatenated. Its
      properties are stated by the lemmas below rather than as a
      postcondition, which every unfolding would otherwise carry. */
  function Transcript(cs: seq<Command>): string
    decreases |cs|
  {
    if |cs| == 0 then "" else Render(cs[0]) + Transcript(cs[1..])
  }

  /** A non-empty transcript ends in a line break: no partial line is
      written. */
  lemma {:induction false} TranscriptEndsLine(cs: seq<Command>)
    requires |cs| > 0
    ensures |Transcript(cs)| > 0 && Transcript(cs)[|Transcript(cs)| - 1] == '\n'
    decreases |cs|
  {
    var line := Render(cs[0]);
    if |cs| == 1 {
      assert cs[1..] == [];
      assert Transcript(cs) == line + "";
    } else {
      TranscriptEndsLine(cs[1..]);
      var rest := Transcript(cs[1..]);
      assert Transcript(cs) == line + rest;
      assert (line + rest)[|line + rest| - 1] == rest[|rest| - 1];
    }
  }

  /** A transcript holds exactly one line break per command. */
  lemma {:induction false} TranscriptLines(cs: seq<Command>)
    ensures Newlines(Transcript(cs)) == |cs|
    decreases |cs|
  {
    if |cs| > 0 {
      RenderIsOneLine(cs[0]);
      TranscriptLines(cs[1..]);
      NewlinesAppend(Render(cs[0]), Transcript(cs[1..]));
    }
  }

  lemma {:induction false} TranscriptAppend(cs: seq<Command>, c: Command)
    ensures Transcript(cs + [c]) == Transcript(cs) + Render(c)
    decreases |cs|
  {
    var ext := cs + [c];
    if |cs| == 0 {
      assert ext[1..] == [];
      assert Transcript(ext) == Render(c) + "";
    } else {
      assert ext[0] == cs[0];
      assert ext[1..] == cs[1..] + [c];
      TranscriptAppend(cs[1..], c);
    }
  }

  /** Index of the first newline, if any. */
  function LineEnd(s: string): (r: Option<nat>)
    ensures r.Some? ==> r.value < |s| && s[r.value] == '\n'
    ensures r.Some? ==> forall j :: 0 <= j < r.value ==> s[j] != '\n'
    ensures r.None? ==> forall j :: 0 <= j < |s| ==> s[j] != '\n'
    decreases |s|
  {
    if |s| == 0 then None
    else if s[0] == '\n' then Some(0)
    else match LineEnd(s[1..])
      case Some(k) => Some(k + 1)
      case None => None
  }

  /** Splits a stream at newlines and reads every line; a trailing fragment
      without its newline, or any unreadable line, rejects the stream. */
  function ParseStream(s: string): (r: Option<seq<Command>>)
    decreases |s|
  {
    if |s| == 0 then Some([])
    else match LineEnd(s)
      case None => None
      case Some(k) =>
        match (ParseLine(s[..k + 1]), ParseStream(s[k + 1..]))
        case (Some(c), Some(cs)) => Some([c] + cs)
        case _ => None
  }

  /** In a line followed by more text, the first break is the line's own. */
  lemma FirstLineEnd(line: string, rest: string)
    requires |line| > 0 && line[|line| - 1] == '\n'
    requires forall i :: 0 <= i < |line| - 1 ==> line[i] != '\n'
    ensures LineEnd(line + rest) == Some(|line| - 1)
  {
    var s := line + rest;
    assert s[|line| - 1] == '\n';
    var k := LineEnd(s).value;
    assert k == |line| - 1 by {
      assert forall j :: 0 <= j < |line| - 1 ==> s[j] == line[j];
    }
  }

  /** A readable line in front of a readable stream reads as one more
      command. */
  lemma ParseStreamCons(line: string, rest: string, c: Command, cs: seq<Command>)
    requires |line| > 0 && line[|line| - 1] == '\n'
    requires forall i :: 0 <= i < |line| - 1 ==> line[i] != '\n'
    requires ParseLine(line) == Some(c) && ParseStream(rest) == Some(cs)
    ensures ParseStream(line + rest) == Some([c] + cs)
  {
    var s := line + rest;
    FirstLineEnd(line, rest);
    assert s[..|line|] == line;
    assert s[|line|..] == rest;
  }

  lemma {:induction false} ParseStreamRoundTrip(cs: seq<Command>)
    ensures ParseStream(Transcript(cs)) == Some(cs)
    decreases |cs|
  {
    if |cs| > 0 {
      var line := Render(cs[0]);
      var rest := Transcript(cs[1..]);
      assert Transcript(cs) == line + rest;
      ParseLineRoundTrip(cs[0]);
      ParseStreamRoundTrip(cs[1..]);
      ParseStreamCons(line, rest, cs[0], cs[1..]);
      assert [cs[0]] + cs[1..] == cs;
    }
  }
}
