/** The stanza framing of src/age_plugin.c: a command line, then a base64 body wrapped at 64 columns and
    ended by a short line. The stream is a string of characters, cut into lines as fgets and strlen
    cut it: at a newline, at the end of the line buffer, and at a NUL. */
module Stanza {
  import opened Base64
  import opened BitGroups
  import opened Common

  const COLUMNS: nat := 64
  const LINE_MAX: nat := 16384
  const MAX_VERB: nat := 64
  const MAX_ARGS: nat := 8
  const MAX_TEXT: nat := 12288
  const MAX_BODY: nat := 8192

  datatype Stanza = Stanza(verb: string, args: seq<string>, body: seq<nat>, bodyOk: bool)

  // ---------------------------------------------------------------------------
  // Writing
  // ---------------------------------------------------------------------------

  /** Full lines of 64 columns and a last short, possibly empty, one. */
  function Wrap(text: string): (s: string)
    ensures |s| > 0
  {
    if |text| < COLUMNS then text + "\n" else text[..COLUMNS] + "\n" + Wrap(text[COLUMNS..])
  }

  const ARROW: string := "-> "

  function Command(verbLine: string): string
  {
    ARROW + verbLine + "\n"
  }

  function Written(verbLine: string, body: seq<nat>): string
    requires Below(body, 8)
  {
    Command(verbLine) + Wrap(Encode(body))
  }

  // ---------------------------------------------------------------------------
  // Reading
  // ---------------------------------------------------------------------------

  /** fgets into the line buffer: how many characters of a nonempty stream it takes. */
  function Fgets(stream: string): (n: nat)
    requires |stream| > 0
    ensures 1 <= n <= |stream| && n < LINE_MAX
  {
    var window := if |stream| < LINE_MAX then stream else stream[..LINE_MAX - 1];
    match IndexIn(window, '\n')
    case Some(i) => i + 1
    case None => |window|
  }

  /** What strlen sees of a buffer. */
  function CString(s: string): string
  {
    match IndexIn(s, '\0')
    case Some(i) => s[..i]
    case None => s
  }

  predicate LineEnd(c: char)
  {
    c == '\n' || c == '\r'
  }

  /** Line ends are dropped from the end of a line. */
  function Trim(line: string): (s: string)
    ensures s <= line
  {
    if |line| > 0 && LineEnd(line[|line| - 1]) then Trim(line[..|line| - 1]) else line
  }

  /** The next line of a nonempty stream, and the stream behind it. */
  function Line(stream: string): (string, string)
    requires |stream| > 0
  {
    (Trim(CString(stream[..Fgets(stream)])), stream[Fgets(stream)..])
  }

  /** The first token of a line and what follows the space behind it, if there is one. */
  function Token(s: string): (string, Option<string>)
  {
    match IndexIn(s, ' ')
    case None => (s, None)
    case Some(i) => (s[..i], Some(s[i + 1..]))
  }

  /** At most n further tokens. */
  function Tokens(rest: Option<string>, n: nat): (ts: seq<string>)
    ensures |ts| <= n
    decreases n
  {
    if rest.None? || n == 0 then []
    else
      var (t, more) := Token(rest.value);
      [t] + Tokens(more, n - 1)
  }

  /** What the body lines hold: the text, whether it fit, and the stream after the short one; none at
      the end of the stream. A line that does not fit is consumed and dropped. */
  function ReadBody(stream: string, text: string, fits: bool): Option<(string, bool, string)>
    decreases |stream|
  {
    if |stream| == 0 then None
    else
      var (l, rest) := Line(stream);
      var (t, f) := if |text| + |l| >= MAX_TEXT then (text, false) else (text + l, fits);
      if |l| < COLUMNS then Some((t, f, rest)) else ReadBody(rest, t, f)
  }

  /** read_stanza: the stanza and the stream behind it. */
  function Read(stream: string): Option<(Stanza, string)>
  {
    if |stream| == 0 then None
    else
      var (line, after) := Line(stream);
      if |line| < 3 || line[..3] != ARROW then None
      else
        var (verb, rest) := Token(line[3..]);
        if |verb| >= MAX_VERB then None
        else match ReadBody(after, "", true)
          case None => None
          case Some((text, fits, behind)) =>
            var body := if fits then Decode(text, MAX_BODY) else None;
            var s := Stanza(verb, Tokens(rest, MAX_ARGS), if body.Some? then body.value else [], body.Some?);
            Some((s, behind))
  }

  // ---------------------------------------------------------------------------
  // Lines
  // ---------------------------------------------------------------------------

  /** What is left of a line after strlen and the removal of line ends. */
  function Seen(line: string): (s: string)
    ensures s <= line
  {
    Trim(CString(line))
  }

  /** A line that is seen whole: no NUL in it, no carriage return at its end. */
  predicate Whole(line: string)
  {
    '\0' !in line && (|line| > 0 ==> !LineEnd(line[|line| - 1]))
  }

  lemma SeenWhole(line: string)
    ensures Whole(line) ==> Seen(line) == line
    ensures |Seen(line)| == |line| ==> Whole(line)
    ensures '\0' !in Seen(line)
    ensures |Seen(line)| > 0 ==> !LineEnd(Seen(line)[|Seen(line)| - 1])
  {
    hide IndexIn;
    TrimEnds(CString(line));
  }

  lemma {:induction false} TrimEnds(s: string)
    ensures |Trim(s)| > 0 ==> !LineEnd(Trim(s)[|Trim(s)| - 1])
    ensures |s| > 0 && LineEnd(s[|s| - 1]) ==> |Trim(s)| < |s|
  {
    if |s| > 0 && LineEnd(s[|s| - 1]) {
      TrimEnds(s[..|s| - 1]);
    }
  }

  /** A line that fits the buffer with its newline is read as one. */
  lemma LineIs(line: string, rest: string)
    requires '\n' !in line && |line| + 1 < LINE_MAX
    ensures |line + "\n" + rest| > 0 && Line(line + "\n" + rest) == (Seen(line), rest)
  {
    hide IndexIn, Trim;
    var stream := line + "\n" + rest;
    var window := if |stream| < LINE_MAX then stream else stream[..LINE_MAX - 1];
    assert window[|line|] == '\n' && forall k :: 0 <= k < |line| ==> window[k] == line[k];
    assert IndexIn(window, '\n') == Some(|line|);
    assert stream[..|line| + 1] == line + "\n" && stream[|line| + 1..] == rest;
    SeenLine(line);
  }

  lemma SeenLine(line: string)
    ensures Trim(CString(line + "\n")) == Seen(line)
  {
    hide IndexIn;
    var s := line + "\n";
    assert forall k :: 0 <= k < |line| ==> s[k] == line[k];
    match IndexIn(line, '\0')
    case Some(i) =>
      assert IndexIn(s, '\0') == Some(i);
      assert s[..i] == line[..i];
    case None =>
      assert IndexIn(s, '\0') == None;
      assert s[..|line|] == line;
  }

  /** A line longer than that is cut, and its rest is the next line. */
  lemma LineCut(line: string, rest: string)
    requires '\n' !in line && |line| + 1 >= LINE_MAX
    ensures |line + rest| > 0 && |Line(line + rest).0| < LINE_MAX
    ensures |line| + 1 == LINE_MAX ==> Line(line + rest).1 == rest
  {
    hide IndexIn, Trim;
    var stream := line + rest;
    var window := if |stream| < LINE_MAX then stream else stream[..LINE_MAX - 1];
    assert forall k :: 0 <= k < |window| ==> window[k] == line[k];
    assert IndexIn(window, '\n') == None;
    if |line| + 1 == LINE_MAX {
      assert stream[|line|..] == rest;
    }
  }

  /** No line that is read holds a NUL or a newline. */
  lemma LineFacts(stream: string)
    requires |stream| > 0
    ensures var l := Line(stream).0; '\0' !in l && '\n' !in l && |l| < LINE_MAX
  {
    hide IndexIn, Trim;
    var n := Fgets(stream);
    var taken := stream[..n];
    SeenWhole(taken);
    var l := Line(stream).0;
    forall k | 0 <= k < |l|
      ensures l[k] != '\n'
    {
      assert l[k] == taken[k];
    }
  }

  // ---------------------------------------------------------------------------
  // Bodies
  // ---------------------------------------------------------------------------

  /** Every full line of a wrapped text is seen whole. */
  predicate FullLinesWhole(text: string)
  {
    |text| < COLUMNS || (Whole(text[..COLUMNS]) && FullLinesWhole(text[COLUMNS..]))
  }

  /** The text with its last, short line as it is seen. */
  function SeenText(text: string): (s: string)
    ensures |s| <= |text|
  {
    if |text| < COLUMNS then Seen(text) else text[..COLUMNS] + SeenText(text[COLUMNS..])
  }

  /** Reading a wrapped text consumes exactly its lines if and only if its full lines are whole;
      otherwise some of them are left in the stream. */
  lemma {:induction false} ReadWrapped(text: string, behind: string, before: string, fits: bool)
    requires '\n' !in text
    ensures ReadBody(Wrap(text) + behind, before, fits).Some?
    ensures var (t, f, rest) := ReadBody(Wrap(text) + behind, before, fits).value;
      && |rest| < |Wrap(text) + behind|
      && (rest == behind <==> FullLinesWhole(text))
      && (FullLinesWhole(text) ==>
            && (f <==> fits && |before| + |SeenText(text)| < MAX_TEXT)
            && (|before| + |SeenText(text)| < MAX_TEXT ==> t == before + SeenText(text)))
    decreases |text|
  {
    hide Line, Seen, Whole;
    if |text| < COLUMNS {
      LineIs(text, behind);
    } else {
      var first, more := text[..COLUMNS], text[COLUMNS..];
      assert Wrap(text) + behind == first + "\n" + (Wrap(more) + behind);
      LineIs(first, Wrap(more) + behind);
      SeenWhole(first);
      if Whole(first) {
        var (t, f) := if |before| + |first| >= MAX_TEXT then (before, false) else (before + first, fits);
        ReadWrapped(more, behind, t, f);
        if |before| + |SeenText(text)| < MAX_TEXT {
          assert before + first + SeenText(more) == before + SeenText(text);
        }
      }
    }
  }

  /** Without NULs and carriage returns a text is read as it is. */
  lemma {:induction false} PlainText(text: string)
    requires '\0' !in text && '\n' !in text && '\r' !in text
    ensures FullLinesWhole(text) && SeenText(text) == text
    decreases |text|
  {
    hide Seen;
    if |text| < COLUMNS {
      SeenWhole(text);
    } else {
      PlainText(text[COLUMNS..]);
      assert text[..COLUMNS] + text[COLUMNS..] == text;
    }
  }

  lemma EncodedPlain(body: seq<nat>)
    requires Below(body, 8)
    ensures var text := Encode(body); '\0' !in text && '\n' !in text && '\r' !in text
  {
    hide Regroup, Below, IndexIn;
    PaddedGroups(body, 6);
    var d := Regroup(body, 8, 6, true).value;
    CharsPlain(d);
  }

  lemma CharsPlain(d: seq<nat>)
    requires Below(d, 6)
    ensures var s := Chars(d); '\0' !in s && '\n' !in s && '\r' !in s
  {
    Pow32();
    forall i | 0 <= i < |d|
      ensures CHARSET[d[i]] !in ['\0', '\n', '\r']
    {
      RankOf(d[i]);
    }
  }

  // ---------------------------------------------------------------------------
  // Command lines
  // ---------------------------------------------------------------------------

  /** The command line for a verb and arguments. */
  function Joined(verb: string, args: seq<string>): string
    decreases |args|
  {
    if |args| == 0 then verb else verb + " " + Joined(args[0], args[1..])
  }

  /** What can be sent: no spaces in verb and arguments, a verb of fewer than 64 characters, at most
      eight arguments, and a line that is seen whole and fits the reader's buffer with its newline. */
  predicate Sendable(verb: string, args: seq<string>)
  {
    && ' ' !in verb && (forall k :: 0 <= k < |args| ==> ' ' !in args[k])
    && |verb| < MAX_VERB && |args| <= MAX_ARGS
    && var line := ARROW + Joined(verb, args);
       '\n' !in line && Whole(line) && |line| <= LINE_MAX - 2
  }

  lemma TokenFirst(t: string, more: string)
    requires ' ' !in t
    ensures Token(t) == (t, None)
    ensures Token(t + " " + more) == (t, Some(more))
  {
    hide IndexIn;
    var s := t + " " + more;
    assert s[|t|] == ' ' && forall k :: 0 <= k < |t| ==> s[k] == t[k];
    assert IndexIn(s, ' ') == Some(|t|);
    assert s[..|t|] == t && s[|t| + 1..] == more;
    assert IndexIn(t, ' ') == None;
  }

  lemma {:induction false} TokensJoined(verb: string, args: seq<string>, n: nat)
    requires ' ' !in verb && (forall k :: 0 <= k < |args| ==> ' ' !in args[k]) && |args| <= n
    ensures var (t, rest) := Token(Joined(verb, args));
      t == verb && Tokens(rest, n) == args
    decreases |args|
  {
    hide Token;
    if |args| == 0 {
      TokenFirst(verb, "");
    } else {
      TokenFirst(verb, Joined(args[0], args[1..]));
      TokensJoined(args[0], args[1..], n - 1);
      assert args == [args[0]] + args[1..];
    }
  }

  /** The tokens of a line have no spaces, only characters of the line, and join to no more than it. */
  lemma {:induction false} TokensFrom(s: string, n: nat)
    ensures var (t, rest) := Token(s);
      var ts := Tokens(rest, n);
      && |Joined(t, ts)| <= |s|
      && ' ' !in t && (forall k :: 0 <= k < |ts| ==> ' ' !in ts[k])
      && (forall c :: c !in s ==> c !in Joined(t, ts) || c == ' ')
    decreases n
  {
    hide IndexIn;
    var (t, rest) := Token(s);
    if rest.Some? && n > 0 {
      TokensFrom(rest.value, n - 1);
      var (t', rest') := Token(rest.value);
      var ts := Tokens(rest, n);
      assert ts[0] == t' && ts[1..] == Tokens(rest', n - 1);
    }
  }

  /** What the reader's answer says about the line it read. */
  lemma ReadFacts(stream: string)
    requires Read(stream).Some?
    ensures var (s, behind) := Read(stream).value;
      var line := ARROW + Joined(s.verb, s.args);
      && ' ' !in s.verb && (forall k :: 0 <= k < |s.args| ==> ' ' !in s.args[k])
      && |s.verb| < MAX_VERB && |s.args| <= MAX_ARGS
      && '\n' !in line && '\0' !in line
      && |stream| > 0 && |line| <= |Line(stream).0|
      && |Line(stream).1| > 0
      && ReadBody(Line(stream).1, "", true).Some? && ReadBody(Line(stream).1, "", true).value.2 == behind
  {
    hide Line, Token, Tokens, ReadBody, Decode, Joined, IndexIn;
    LineFacts(stream);
    var line := Line(stream).0;
    TokensFrom(line[3..], MAX_ARGS);
    NothingToRead();
  }

  lemma NothingToRead()
    ensures ReadBody("", "", true).None?
  {
  }

  /** A sendable command line is read back, and the body follows it. */
  lemma CommandRead(verb: string, args: seq<string>, tail: string)
    requires Sendable(verb, args) && ReadBody(tail, "", true).Some?
    ensures var (text, fits, behind) := ReadBody(tail, "", true).value;
      var body := if fits then Decode(text, MAX_BODY) else None;
      Read(Command(Joined(verb, args)) + tail)
        == Some((Stanza(verb, args, if body.Some? then body.value else [], body.Some?), behind))
  {
    hide Line, Seen, Token, Tokens, ReadBody, Decode, Joined, Whole;
    var line := ARROW + Joined(verb, args);
    assert Command(Joined(verb, args)) + tail == line + "\n" + tail;
    LineIs(line, tail);
    SeenWhole(line);
    assert line[..3] == ARROW && line[3..] == Joined(verb, args);
    TokensJoined(verb, args, MAX_ARGS);
  }

  /** If a command line's verb and arguments come back, the line was sendable, or it filled the buffer
      to the last character and its newline was taken for the body. */
  lemma CommandReadOnly(verb: string, args: seq<string>, tail: string)
    requires |tail| > 0 && Read(Command(Joined(verb, args)) + tail).Some?
    requires var s := Read(Command(Joined(verb, args)) + tail).value.0; s.verb == verb && s.args == args
    ensures Sendable(verb, args) || Read(Command(Joined(verb, args)) + tail).value.1 == tail
  {
    hide Line, Seen, Joined, Read, Whole, ReadBody;
    var line := ARROW + Joined(verb, args);
    var stream := Command(Joined(verb, args)) + tail;
    ReadFacts(stream);
    if |line| + 1 < LINE_MAX {
      assert stream == line + "\n" + tail;
      LineIs(line, tail);
      SeenWhole(line);
    } else {
      assert stream == line + ("\n" + tail);
      LineCut(line, "\n" + tail);
      EmptyBody(tail);
    }
  }

  /** A newline alone is an empty body. */
  lemma EmptyBody(tail: string)
    ensures ReadBody("\n" + tail, "", true) == Some(("", true, tail))
  {
    hide Line, Seen;
    assert "\n" + tail == "" + "\n" + tail;
    LineIs("", tail);
    var empty: string := "";
    assert Seen(empty) == empty && empty + empty == empty;
  }

  // ---------------------------------------------------------------------------
  // What the framing promises, and exactly when
  // ---------------------------------------------------------------------------

  /** Reading back a written stanza gives its verb, arguments and body, and leaves the stream behind
      it, if and only if the command line is sendable and the body is within the reader's buffer. */
  lemma RoundTripIff(verb: string, args: seq<string>, body: seq<nat>, behind: string)
    requires Below(body, 8)
    ensures Read(Written(Joined(verb, args), body) + behind) == Some((Stanza(verb, args, body, true), behind))
      <==> Sendable(verb, args) && |body| <= MAX_BODY
  {
    hide Wrap, ReadBody, Encode, Decode, Joined, Read, Sendable, FullLinesWhole, SeenText;
    var text := Encode(body);
    var tail := Wrap(text) + behind;
    var stream := Command(Joined(verb, args)) + tail;
    assert Written(Joined(verb, args), body) + behind == stream;
    EncodedPlain(body);
    PlainText(text);
    ReadWrapped(text, behind, "", true);
    assert "" + text == text;
    TextFits(body);
    if Sendable(verb, args) {
      CommandRead(verb, args, tail);
    } else if Read(stream) == Some((Stanza(verb, args, body, true), behind)) {
      CommandReadOnly(verb, args, tail);
    }
  }

  /** A body the reader has room for comes back; a longer one does not. */
  lemma TextFits(body: seq<nat>)
    requires Below(body, 8)
    ensures |body| <= MAX_BODY <==> |Encode(body)| < MAX_TEXT && Decode(Encode(body), MAX_BODY).Some?
    ensures |body| <= MAX_BODY ==> Decode(Encode(body), MAX_BODY) == Some(body)
  {
    hide Encode, Regroup, Values;
    EncodedLength(body);
    Base64.RoundTrip(body, |body|);
    if |body| <= MAX_BODY {
      Base64.RoundTrip(body, MAX_BODY);
    }
  }

  /** A foreign stanza, with any text for a body, is skipped exactly, its verb and arguments known, if
      and only if its command line is sendable and the full lines of its body are whole. Only bodyOk
      tells whether the text that was seen fits and is canonical base64. */
  lemma ForeignBodyIff(verb: string, args: seq<string>, text: string, behind: string)
    requires '\n' !in text
    ensures var r := Read(Command(Joined(verb, args)) + Wrap(text) + behind);
      && ((r.Some? && r.value.1 == behind && r.value.0.verb == verb && r.value.0.args == args) <==>
            (Sendable(verb, args) && FullLinesWhole(text)))
      && (Sendable(verb, args) && FullLinesWhole(text) ==>
            (r.value.0.bodyOk <==> |SeenText(text)| < MAX_TEXT && Decode(SeenText(text), MAX_BODY).Some?))
  {
    hide Wrap, ReadBody, Decode, Joined, Read, Sendable, FullLinesWhole, SeenText;
    var tail := Wrap(text) + behind;
    assert Command(Joined(verb, args)) + Wrap(text) + behind == Command(Joined(verb, args)) + tail;
    ReadWrapped(text, behind, "", true);
    assert "" + SeenText(text) == SeenText(text);
    var r := Read(Command(Joined(verb, args)) + tail);
    if Sendable(verb, args) {
      CommandRead(verb, args, tail);
    } else if r.Some? && r.value.1 == behind && r.value.0.verb == verb && r.value.0.args == args {
      CommandReadOnly(verb, args, tail);
    }
  }

  /** A NUL at the start of a full line ends the body there: the next line of the body is read as a
      command, which fails. */
  lemma NulEndsBody(behind: string)
    ensures var text := "\0" + seq(67, _ => 'A');
      var r := Read(Command("x") + Wrap(text) + behind);
      r.Some? && r.value.1 == "AAAA" + "\n" + behind && Read(r.value.1).None?
  {
    hide Line, IndexIn, Trim, Token, Decode;
    var text: string := "\0" + seq(67, _ => 'A');
    var first := text[..COLUMNS];
    assert text[COLUMNS..] == "AAAA";
    assert Wrap(text) == first + "\n" + ("AAAA" + "\n");
    var tail := Wrap(text) + behind;
    assert tail == first + "\n" + ("AAAA" + "\n" + behind);
    LineIs(first, "AAAA" + "\n" + behind);
    assert first[0] == '\0';
    assert IndexIn(first, '\0') == Some(0);
    assert Seen(first) == "";
    var empty: string := "";
    assert empty + empty == empty;
    assert ReadBody(tail, "", true) == Some(("", true, "AAAA" + "\n" + behind));
    ShortCommand();
    CommandRead("x", [], tail);
    assert Command("x") + Wrap(text) + behind == Command("x") + tail;
    LineIs("AAAA", behind);
    SeenWhole("AAAA");
    assert "AAAA"[..3][0] != ARROW[0];
  }

  lemma ShortCommand()
    ensures Joined("x", []) == "x" && Sendable("x", [])
  {
    var line := ARROW + "x";
    assert line == "-> x";
  }

  /** A command line one character short of the buffer: its newline is taken for an empty body, and
      the body that was sent stays in the stream. */
  lemma LongLineLosesBody(verb: string, args: seq<string>, body: seq<nat>, behind: string)
    requires ' ' !in verb && (forall k :: 0 <= k < |args| ==> ' ' !in args[k]) && Below(body, 8)
    requires |verb| < MAX_VERB && |args| <= MAX_ARGS
    requires var line := ARROW + Joined(verb, args); '\n' !in line && Whole(line) && |line| == LINE_MAX - 1
    ensures Read(Written(Joined(verb, args), body) + behind)
      == Some((Stanza(verb, args, [], true), Wrap(Encode(body)) + behind))
  {
    hide Wrap, ReadBody, Encode, Decode, Joined, Whole, Token, Tokens, Fgets, CString, Trim, IndexIn;
    var line := ARROW + Joined(verb, args);
    var tail := Wrap(Encode(body)) + behind;
    var stream := line + ("\n" + tail);
    assert Written(Joined(verb, args), body) + behind == stream;
    CutWhole(line, "\n" + tail);
    assert line[..3] == ARROW && line[3..] == Joined(verb, args);
    TokensJoined(verb, args, MAX_ARGS);
    EmptyBody(tail);
    EmptyText();
  }

  lemma CutWhole(line: string, rest: string)
    requires '\n' !in line && Whole(line) && |line| == LINE_MAX - 1
    ensures |line + rest| > 0 && Line(line + rest) == (line, rest)
  {
    hide Trim, Whole, IndexIn;
    var stream := line + rest;
    var window := if |stream| < LINE_MAX then stream else stream[..LINE_MAX - 1];
    assert window == line;
    assert stream[..|line|] == line && stream[|line|..] == rest;
    SeenWhole(line);
  }

  lemma EmptyText()
    ensures Decode("", MAX_BODY) == Some([])
  {
    hide Regroup, Values;
    Base64.RoundTrip([], MAX_BODY);
    assert Encode([]) == "" by {
      EncodedLength([]);
    }
  }

  /** Such a line exists. */
  lemma LongLineExists() returns (arg: string)
    ensures ' ' !in arg
    ensures var line := ARROW + Joined("x", [arg]); '\n' !in line && Whole(line) && |line| == LINE_MAX - 1
  {
    arg := seq(LINE_MAX - 6, _ => 'a');
    assert [arg][1..] == [];
    assert Joined(arg, []) == arg;
    assert Joined("x", [arg]) == "x" + " " + arg;
  }

  // ---------------------------------------------------------------------------
  // The loops
  // ---------------------------------------------------------------------------

  /** write_stanza. */
  method Write(verbLine: string, body: seq<nat>) returns (out: string)
    requires Below(body, 8)
    ensures out == Written(verbLine, body)
  {
    hide Encode;
    var text := EncodeText(body);
    out := Command(verbLine);
    var off: nat := 0;
    assert text[0..] == text;
    while |text| - off >= COLUMNS
      invariant off <= |text| && Written(verbLine, body) == out + Wrap(text[off..])
    {
      out := out + text[off..off + COLUMNS] + "\n";
      assert text[off..][..COLUMNS] == text[off..off + COLUMNS] && text[off..][COLUMNS..] == text[off + COLUMNS..];
      off := off + COLUMNS;
    }
    out := out + text[off..] + "\n";
  }

  /** read_stanza. */
  method ReadStanza(stream: string) returns (r: Option<(Stanza, string)>)
    ensures r == Read(stream)
  {
    hide Fgets, CString, Trim, Token, Decode, IndexIn;
    if |stream| == 0 {
      return None;
    }
    var (line, after) := Line(stream);
    if |line| < 3 || line[..3] != ARROW {
      return None;
    }
    var (verb, rest) := Token(line[3..]);
    if |verb| >= MAX_VERB {
      return None;
    }
    var args: seq<string> := [];
    var tail := rest;
    while tail.Some? && |args| < MAX_ARGS
      invariant |args| <= MAX_ARGS && Tokens(rest, MAX_ARGS) == args + Tokens(tail, MAX_ARGS - |args|)
      decreases MAX_ARGS - |args|
    {
      var (t, more) := Token(tail.value);
      assert args + ([t] + Tokens(more, MAX_ARGS - |args| - 1)) == args + [t] + Tokens(more, MAX_ARGS - |args| - 1);
      args := args + [t];
      tail := more;
    }
    assert args + [] == args;
    var read := CollectBody(after);
    if read.None? {
      return None;
    }
    var (text, fits, behind) := read.value;
    var body := None;
    if fits {
      body := DecodeText(text, MAX_BODY);
    }
    r := Some((Stanza(verb, args, if body.Some? then body.value else [], body.Some?), behind));
  }

  method CollectBody(stream: string) returns (r: Option<(string, bool, string)>)
    ensures r == ReadBody(stream, "", true)
  {
    hide CString, Trim;
    var text, fits := "", true;
    var left := stream;
    while |left| > 0
      invariant ReadBody(stream, "", true) == ReadBody(left, text, fits)
      decreases |left|
    {
      var (l, rest) := Line(left);
      if |text| + |l| >= MAX_TEXT {
        fits := false;
      } else {
        text := text + l;
      }
      left := rest;
      if |l| < COLUMNS {
        return Some((text, fits, left));
      }
    }
    r := None;
  }
}
