/** The wire format of the stream command server: octets framed into command lines by a delimiter, lines
    decoded and split into words. */
module StreamCommands {
  import opened Utf8

  const CR: octet := 13
  const LF: octet := 10

  /** Commands are numbered from 0. A negative limit is no limit. */
  datatype Tables = Tables(names: seq<string>, upper: seq<int>, lower: seq<int>)
  {
    ghost predicate Valid() { |names| == |upper| == |lower| }
  }

  datatype Command = Command(cmd: nat, args: seq<string>)

  /** Splits at every separator, keeping empty parts; the empty sequence has one empty part. */
  function Split<T(==)>(s: seq<T>, sep: T): (parts: seq<seq<T>>)
    ensures |parts| >= 1
  {
    if s == [] then [[]]
    else
      var rest := Split(s[1..], sep);
      if s[0] == sep then [[]] + rest else [[s[0]] + rest[0]] + rest[1..]
  }

  predicate WithinLimits(t: Tables, cmd: nat, count: nat)
    requires t.Valid() && cmd < |t.names|
  {
    (t.upper[cmd] < 0 || count <= t.upper[cmd]) && (t.lower[cmd] < 0 || count >= t.lower[cmd])
  }

  function Hit(t: Tables, words: seq<string>, i: nat): seq<Command>
    requires t.Valid() && i < |t.names| && |words| >= 1
  {
    if t.names[i] == words[0] && WithinLimits(t, i, |words| - 1) then [Command(i, words[1..])] else []
  }

  /** The commands among the first `k` of the table that the words invoke. */
  function Invoked(t: Tables, words: seq<string>, k: nat): seq<Command>
    requires t.Valid() && k <= |t.names| && |words| >= 1
  {
    if k == 0 then [] else Invoked(t, words, k - 1) + Hit(t, words, k - 1)
  }

  function Interpret(t: Tables, text: string): seq<Command>
    requires t.Valid()
  {
    Invoked(t, Split(text, ' '), |t.names|)
  }

  // --- The framer, byte by byte ------------------------------------------------------------

  datatype Framed = Framed(buffer: seq<octet>, commands: seq<Command>)

  function Take(t: Tables, delimiter: octet, f: Framed, c: octet): Framed
    requires t.Valid()
  {
    if c == delimiter then Framed([], f.commands + Interpret(t, FromUtf8(f.buffer)))
    else if c != LF && c != CR then Framed(f.buffer + [c], f.commands)
    else f
  }

  function Feed(t: Tables, delimiter: octet, f: Framed, data: seq<octet>): Framed
    requires t.Valid()
  {
    if data == [] then f else Take(t, delimiter, Feed(t, delimiter, f, data[..|data| - 1]), data[|data| - 1])
  }

  const FRESH := Framed([], [])

  // --- What the framer means ---------------------------------------------------------------

  function Kept(c: octet): seq<octet> { if c == LF || c == CR then [] else [c] }

  /** A stretch without its carriage returns and line feeds. */
  function Strip(s: seq<octet>): seq<octet> {
    if s == [] then [] else Kept(s[0]) + Strip(s[1..])
  }

  function InterpretAll(t: Tables, frames: seq<seq<octet>>): seq<Command>
    requires t.Valid()
  {
    if frames == [] then []
    else InterpretAll(t, frames[..|frames| - 1]) + Interpret(t, FromUtf8(Strip(frames[|frames| - 1])))
  }

  /** The last frame is still open; the others are one command line each. */
  function ReadFrames(t: Tables, frames: seq<seq<octet>>): Framed
    requires t.Valid() && |frames| >= 1
  {
    var n := |frames| - 1;
    Framed(Strip(frames[n]), InterpretAll(t, frames[..n]))
  }

  /** The reading of a whole stream: cut it at the delimiters. */
  function Reading(t: Tables, delimiter: octet, stream: seq<octet>): Framed
    requires t.Valid()
  {
    ReadFrames(t, Split(stream, delimiter))
  }

  /** Appending an element closes the last part or extends it. */
  function Grow<T(==)>(parts: seq<seq<T>>, sep: T, c: T): seq<seq<T>>
    requires |parts| >= 1
  {
    var n := |parts| - 1;
    if c == sep then parts + [[]] else parts[..n] + [parts[n] + [c]]
  }

  lemma GrowBehind<T>(rest: seq<seq<T>>, sep: T, c: T)
    requires |rest| >= 1
    ensures Grow([[]] + rest, sep, c) == [[]] + Grow(rest, sep, c)
  {
    var n := |rest| - 1;
    if c != sep {
      assert ([[]] + rest)[..n + 1] == [[]] + rest[..n];
    }
  }

  lemma GrowUnderHead<T>(rest: seq<seq<T>>, sep: T, c: T, head: T)
    requires |rest| >= 1
    ensures var g := Grow(rest, sep, c);
      Grow([[head] + rest[0]] + rest[1..], sep, c) == [[head] + g[0]] + g[1..]
  {
    var n := |rest| - 1;
    var parts := [[head] + rest[0]] + rest[1..];
    if c != sep {
      if n == 0 {
        assert [head] + (rest[0] + [c]) == ([head] + rest[0]) + [c];
      } else {
        assert parts[..n] == [[head] + rest[0]] + rest[1..n];
        assert parts[n] == rest[n];
      }
    }
  }

  lemma {:induction false} SplitSnoc<T>(s: seq<T>, sep: T, c: T)
    ensures Split(s + [c], sep) == Grow(Split(s, sep), sep, c)
  {
    if s == [] {
      assert s + [c] == [c];
      assert [c] + [] == [c];
    } else {
      SplitSnoc(s[1..], sep, c);
      GrowBehind(Split(s[1..], sep), sep, c);
      GrowUnderHead(Split(s[1..], sep), sep, c, s[0]);
      assert (s + [c])[1..] == s[1..] + [c];
    }
  }

  lemma {:induction false} StripSnoc(s: seq<octet>, c: octet)
    ensures Strip(s + [c]) == Strip(s) + Kept(c)
  {
    if s == [] {
      assert s + [c] == [c] && [c][1..] == [];
    } else {
      StripSnoc(s[1..], c);
      assert (s + [c])[1..] == s[1..] + [c];
      Associates(Kept(s[0]), Strip(s[1..]), Kept(c));
    }
  }

  lemma ReadingSnoc(t: Tables, delimiter: octet, stream: seq<octet>, c: octet)
    requires t.Valid()
    ensures Reading(t, delimiter, stream + [c]) == Take(t, delimiter, Reading(t, delimiter, stream), c)
  {
    SplitSnoc(stream, delimiter, c);
    GrowReads(t, delimiter, Split(stream, delimiter), c);
  }

  lemma CloseReads(t: Tables, frames: seq<seq<octet>>)
    requires t.Valid() && |frames| >= 1
    ensures var f := ReadFrames(t, frames);
      ReadFrames(t, frames + [[]]) == Framed([], f.commands + Interpret(t, FromUtf8(f.buffer)))
  {
    var more := frames + [[]];
    assert more[..|frames|] == frames && more[|frames|] == [];
  }

  lemma OpenReads(t: Tables, frames: seq<seq<octet>>, c: octet)
    requires t.Valid() && |frames| >= 1
    ensures var n, f := |frames| - 1, ReadFrames(t, frames);
      ReadFrames(t, frames[..n] + [frames[n] + [c]])
        == Framed(f.buffer + Kept(c), f.commands)
  {
    var n := |frames| - 1;
    var grown := frames[..n] + [frames[n] + [c]];
    assert grown[..n] == frames[..n] && grown[n] == frames[n] + [c];
    StripSnoc(frames[n], c);
  }

  lemma GrowReads(t: Tables, delimiter: octet, frames: seq<seq<octet>>, c: octet)
    requires t.Valid() && |frames| >= 1
    ensures ReadFrames(t, Grow(frames, delimiter, c)) == Take(t, delimiter, ReadFrames(t, frames), c)
  {
    if c == delimiter {
      CloseReads(t, frames);
    } else {
      OpenReads(t, frames, c);
      var f := ReadFrames(t, frames);
      assert f.buffer + [] == f.buffer;
    }
  }

  lemma FeedSnoc(t: Tables, delimiter: octet, f: Framed, data: seq<octet>, c: octet)
    requires t.Valid()
    ensures Feed(t, delimiter, f, data + [c]) == Take(t, delimiter, Feed(t, delimiter, f, data), c)
  {
    assert (data + [c])[..|data|] == data;
  }

  lemma NothingRead(t: Tables, delimiter: octet)
    requires t.Valid()
    ensures Reading(t, delimiter, []) == FRESH
  {
    assert Split<octet>([], delimiter) == [[]];
  }

  /** The byte loop computes the reading of the stream. */
  lemma {:induction false} FeedIsReading(t: Tables, delimiter: octet, stream: seq<octet>)
    requires t.Valid()
    ensures Feed(t, delimiter, FRESH, stream) == Reading(t, delimiter, stream)
  {
    if stream == [] {
      NothingRead(t, delimiter);
    } else {
      var n := |stream| - 1;
      FeedIsReading(t, delimiter, stream[..n]);
      ReadingSnoc(t, delimiter, stream[..n], stream[n]);
      FeedSnoc(t, delimiter, FRESH, stream[..n], stream[n]);
      assert stream == stream[..n] + [stream[n]];
    }
  }

  /** However a stream is cut into reads, the result is the same. */
  lemma {:induction false} FeedConcat(t: Tables, delimiter: octet, f: Framed, a: seq<octet>, b: seq<octet>)
    requires t.Valid()
    ensures Feed(t, delimiter, f, a + b) == Feed(t, delimiter, Feed(t, delimiter, f, a), b)
  {
    if b == [] {
      assert a + b == a;
    } else {
      var n := |b| - 1;
      FeedConcat(t, delimiter, f, a, b[..n]);
      assert (a + b)[..|a + b| - 1] == a + b[..n];
    }
  }

  lemma TakeFrame(t: Tables, delimiter: octet, g: Framed, cs: seq<Command>, c: octet)
    requires t.Valid()
    ensures var r := Take(t, delimiter, g, c);
      Take(t, delimiter, Framed(g.buffer, cs + g.commands), c) == Framed(r.buffer, cs + r.commands)
  {
    var more := Interpret(t, FromUtf8(g.buffer));
    assert (cs + g.commands) + more == cs + (g.commands + more);
  }

  /** Carriage returns and line feeds that do not delimit make no difference, wherever they stand. */
  lemma LineEndsMakeNoDifference(
      t: Tables, delimiter: octet, f: Framed, a: seq<octet>, c: octet, b: seq<octet>)
    requires t.Valid() && (c == CR || c == LF) && c != delimiter
    ensures Feed(t, delimiter, f, a + [c] + b) == Feed(t, delimiter, f, a + b)
  {
    FeedConcat(t, delimiter, f, a + [c], b);
    FeedConcat(t, delimiter, f, a, b);
    FeedSnoc(t, delimiter, f, a, c);
  }

  /** Commands already emitted do not influence the framing. */
  lemma {:induction false} FeedFrame(t: Tables, delimiter: octet, buffer: seq<octet>, cs: seq<Command>,
                                     data: seq<octet>)
    requires t.Valid()
    ensures var g := Feed(t, delimiter, Framed(buffer, []), data);
      Feed(t, delimiter, Framed(buffer, cs), data) == Framed(g.buffer, cs + g.commands)
  {
    if data == [] {
      assert cs + [] == cs;
    } else {
      var n := |data| - 1;
      FeedFrame(t, delimiter, buffer, cs, data[..n]);
      TakeFrame(t, delimiter, Feed(t, delimiter, Framed(buffer, []), data[..n]), cs, data[n]);
    }
  }

  // --- Printing ----------------------------------------------------------------------------

  /** The words of a command line, each but the first led by a space. */
  function Join(words: seq<string>): string
    requires |words| >= 1
  {
    if |words| == 1 then words[0] else Join(words[..|words| - 1]) + " " + words[|words| - 1]
  }

  /** `sendCommand`: the command's name, its arguments and the delimiter. */
  function Print(t: Tables, delimiter: octet, cmd: nat, args: seq<string>): string
    requires t.Valid() && cmd < |t.names|
  {
    Join([t.names[cmd]] + args) + [delimiter as char]
  }

  /** Nothing in the text that the wire format uses for itself. */
  predicate Clean(delimiter: octet, s: string) {
    ' ' !in s && '\r' !in s && '\n' !in s && delimiter as char !in s
  }

  ghost predicate AllClean(delimiter: octet, words: seq<string>) {
    forall i :: 0 <= i < |words| ==> Clean(delimiter, words[i])
  }

  lemma {:induction false} SplitPartsLackSep<T>(s: seq<T>, sep: T)
    ensures forall i :: 0 <= i < |Split(s, sep)| ==> sep !in Split(s, sep)[i]
  {
    if s != [] {
      SplitPartsLackSep(s[1..], sep);
    }
  }

  lemma {:induction false} SplitPartsAreParts<T>(s: seq<T>, sep: T, c: T)
    requires c !in s
    ensures forall i :: 0 <= i < |Split(s, sep)| ==> c !in Split(s, sep)[i]
  {
    if s != [] {
      SplitPartsAreParts(s[1..], sep, c);
    }
  }

  lemma {:induction false} SplitAppend<T>(s: seq<T>, sep: T, w: seq<T>)
    requires sep !in w
    ensures Split(s + [sep] + w, sep) == Split(s, sep) + [w]
  {
    if w == [] {
      assert s + [sep] + w == s + [sep];
      SplitSnoc(s, sep, sep);
    } else {
      var n := |w| - 1;
      SplitAppend(s, sep, w[..n]);
      SplitSnoc(s + [sep] + w[..n], sep, w[n]);
      assert s + [sep] + w == (s + [sep] + w[..n]) + [w[n]];
      assert w[..n] + [w[n]] == w;
      var parts := Split(s, sep) + [w[..n]];
      assert parts[..|parts| - 1] == Split(s, sep);
    }
  }

  /** The parts with a separator between each two. */
  function Glue<T>(parts: seq<seq<T>>, sep: T): seq<T>
    requires |parts| >= 1
  {
    if |parts| == 1 then parts[0] else parts[0] + [sep] + Glue(parts[1..], sep)
  }

  lemma GlueHead<T>(x: T, parts: seq<seq<T>>, sep: T)
    requires |parts| >= 1
    ensures Glue([[x] + parts[0]] + parts[1..], sep) == [x] + Glue(parts, sep)
  {
    var more := [[x] + parts[0]] + parts[1..];
    assert more[1..] == parts[1..] && more[0] == [x] + parts[0];
    if |parts| > 1 {
      var rest := Glue(parts[1..], sep);
      Associates([x], parts[0], [sep]);
      Associates([x], parts[0] + [sep], rest);
      assert Glue(more, sep) == ([x] + parts[0]) + [sep] + rest;
    }
  }

  /** Nothing is lost or changed in splitting. */
  lemma {:induction false} GlueUndoesSplit<T>(s: seq<T>, sep: T)
    ensures Glue(Split(s, sep), sep) == s
  {
    if s != [] {
      var rest := Split(s[1..], sep);
      GlueUndoesSplit(s[1..], sep);
      if s[0] == sep {
        assert ([[]] + rest)[1..] == rest;
        assert [] + [sep] + s[1..] == s;
      } else {
        GlueHead(s[0], rest, sep);
      }
    }
  }

  lemma {:induction false} SplitOfWord<T>(w: seq<T>, sep: T)
    requires sep !in w
    ensures Split(w, sep) == [w]
  {
    if w != [] {
      SplitOfWord(w[1..], sep);
      assert [w[0]] + w[1..] == w;
    }
  }

  ghost predicate Spaceless(words: seq<string>) {
    forall i :: 0 <= i < |words| ==> ' ' !in words[i]
  }

  /** Splitting undoes joining exactly when no word holds a space. */
  lemma {:induction false} SplitUndoesJoin(words: seq<string>)
    requires |words| >= 1
    ensures Split(Join(words), ' ') == words <==> Spaceless(words)
  {
    if Spaceless(words) {
      SplitOfJoin(words);
    } else {
      SplitPartsLackSep(Join(words), ' ');
    }
  }

  lemma {:induction false} SplitOfJoin(words: seq<string>)
    requires |words| >= 1 && Spaceless(words)
    ensures Split(Join(words), ' ') == words
  {
    if |words| == 1 {
      SplitOfWord(words[0], ' ');
    } else {
      var n := |words| - 1;
      SplitOfJoin(words[..n]);
      SplitAppend(Join(words[..n]), ' ', words[n]);
      assert words[..n] + [words[n]] == words;
    }
  }

  lemma {:induction false} JoinAvoids(words: seq<string>, c: char)
    requires |words| >= 1 && c != ' ' && forall i :: 0 <= i < |words| ==> c !in words[i]
    ensures c !in Join(words)
  {
    if |words| > 1 {
      JoinAvoids(words[..|words| - 1], c);
    }
  }

  lemma {:induction false} StripPlain(text: seq<octet>)
    requires CR !in text && LF !in text
    ensures Strip(text) == text
  {
    if text != [] {
      StripPlain(text[1..]);
      assert [text[0]] + text[1..] == text;
    }
  }

  lemma FeedPlain(t: Tables, delimiter: octet, text: seq<octet>)
    requires t.Valid() && CR !in text && LF !in text && delimiter !in text
    ensures Feed(t, delimiter, FRESH, text) == Framed(text, [])
  {
    FeedIsReading(t, delimiter, text);
    SplitOfWord(text, delimiter);
    StripPlain(text);
  }

  ghost predicate Distinct(names: seq<string>) {
    forall i, j :: 0 <= i < j < |names| ==> names[i] != names[j]
  }

  lemma {:induction false} InvokedNone(t: Tables, words: seq<string>, k: nat)
    requires t.Valid() && k <= |t.names| && |words| >= 1
    requires forall i :: 0 <= i < k ==> t.names[i] != words[0]
    ensures Invoked(t, words, k) == []
  {
    if k > 0 {
      InvokedNone(t, words, k - 1);
    }
  }

  /** With distinct names at most one command answers to a line. */
  lemma {:induction false} InvokedOnce(t: Tables, words: seq<string>, cmd: nat, k: nat)
    requires t.Valid() && Distinct(t.names) && cmd < k <= |t.names|
    requires |words| >= 1 && words[0] == t.names[cmd]
    ensures Invoked(t, words, k) == if WithinLimits(t, cmd, |words| - 1) then [Command(cmd, words[1..])] else []
  {
    if k - 1 == cmd {
      InvokedNone(t, words, cmd);
      assert [] + Hit(t, words, cmd) == Hit(t, words, cmd);
    } else {
      assert Hit(t, words, k - 1) == [];
      InvokedOnce(t, words, cmd, k - 1);
      assert Invoked(t, words, k - 1) + [] == Invoked(t, words, k - 1);
    }
  }

  /** The commands come in table order, no table entry twice. */
  ghost predicate Ascending(cs: seq<Command>, bound: nat) {
    && (forall i, j :: 0 <= i < j < |cs| ==> cs[i].cmd < cs[j].cmd)
    && forall i :: 0 <= i < |cs| ==> cs[i].cmd < bound
  }

  /** The entry at `cmd` is invoked by these words. */
  ghost predicate Answers(t: Tables, words: seq<string>, cmd: nat)
    requires t.Valid() && cmd < |t.names| && |words| >= 1
  {
    && t.names[cmd] == words[0]
    && (t.upper[cmd] >= 0 ==> |words| - 1 <= t.upper[cmd])
    && (t.lower[cmd] >= 0 ==> t.lower[cmd] <= |words| - 1)
  }

  /** A line invokes every entry of the table that bears its first word as a name and whose limits the number of
      its other words keeps, names borne twice included, in table order, once each, with those words. */
  lemma {:induction false} InvokedExactly(t: Tables, words: seq<string>, k: nat)
    requires t.Valid() && k <= |t.names| && |words| >= 1
    ensures Ascending(Invoked(t, words, k), k)
    ensures forall c :: c in Invoked(t, words, k) <==>
      c.cmd < k && Answers(t, words, c.cmd) && c.args == words[1..]
  {
    if k > 0 {
      InvokedExactly(t, words, k - 1);
      forall c
        ensures c in Hit(t, words, k - 1) <==> c.cmd == k - 1 && Answers(t, words, k - 1) && c.args == words[1..]
      {
        assert c == Command(c.cmd, c.args);
      }
    }
  }

  ghost predicate CleanCommands(delimiter: octet, cs: seq<Command>) {
    forall i :: 0 <= i < |cs| ==> AllClean(delimiter, cs[i].args)
  }

  lemma {:induction false} InvokedAreClean(t: Tables, delimiter: octet, words: seq<string>, k: nat)
    requires t.Valid() && k <= |t.names| && |words| >= 1 && AllClean(delimiter, words)
    ensures CleanCommands(delimiter, Invoked(t, words, k))
  {
    if k > 0 {
      InvokedAreClean(t, delimiter, words, k - 1);
    }
  }

  ghost predicate PlainBuffer(delimiter: octet, s: seq<octet>) {
    CR !in s && LF !in s && delimiter !in s
  }

  /** Whatever arrives, an emitted argument never holds a space, a line end or the delimiter. */
  lemma {:induction false} FeedEmitsClean(t: Tables, delimiter: octet, data: seq<octet>)
    requires t.Valid() && delimiter < 0x80
    ensures var f := Feed(t, delimiter, FRESH, data);
      PlainBuffer(delimiter, f.buffer) && CleanCommands(delimiter, f.commands)
  {
    if data != [] {
      FeedEmitsClean(t, delimiter, data[..|data| - 1]);
      LineEmitsClean(t, delimiter, Feed(t, delimiter, FRESH, data[..|data| - 1]).buffer);
    }
  }

  lemma LineEmitsClean(t: Tables, delimiter: octet, buffer: seq<octet>)
    requires t.Valid() && delimiter < 0x80 && PlainBuffer(delimiter, buffer)
    ensures CleanCommands(delimiter, Interpret(t, FromUtf8(buffer)))
  {
    var text := FromUtf8(buffer);
    AsciiInDecoding(buffer, CR);
    AsciiInDecoding(buffer, LF);
    AsciiInDecoding(buffer, delimiter);
    SplitPartsLackSep(text, ' ');
    SplitPartsAreParts(text, ' ', '\r');
    SplitPartsAreParts(text, ' ', '\n');
    SplitPartsAreParts(text, ' ', delimiter as char);
    InvokedAreClean(t, delimiter, Split(text, ' '), |t.names|);
  }

  // --- On the wire -------------------------------------------------------------------------

  /** A command line whose encoding arrives whole comes back as the one command it was printed from, exactly
      when its arguments are within the limits of its table entry and hold nothing the wire format uses for
      itself. Empty arguments are fine, and so is any character beyond ASCII. */
  lemma EncodedCommandReadsBack(t: Tables, delimiter: octet, cmd: nat, args: seq<string>)
    requires t.Valid() && cmd < |t.names| && Clean(delimiter, t.names[cmd])
    requires Distinct(t.names) && delimiter < 0x80 && delimiter as char != ' '
    ensures Feed(t, delimiter, FRESH, ToUtf8(Print(t, delimiter, cmd, args))) == Framed([], [Command(cmd, args)])
      <==> Answers(t, [t.names[cmd]] + args, cmd) && AllClean(delimiter, args)
  {
    if AllClean(delimiter, args) {
      CleanCommandReadsBack(t, delimiter, cmd, args);
    } else {
      OnlyCleanReadsBack(t, delimiter, cmd, args, ToUtf8(Print(t, delimiter, cmd, args)));
    }
  }

  lemma OnlyCleanReadsBack(t: Tables, delimiter: octet, cmd: nat, args: seq<string>, data: seq<octet>)
    requires t.Valid() && delimiter < 0x80 && !AllClean(delimiter, args)
    ensures Feed(t, delimiter, FRESH, data).commands != [Command(cmd, args)]
  {
    FeedEmitsClean(t, delimiter, data);
    var cs := Feed(t, delimiter, FRESH, data).commands;
    assert |cs| == 1 ==> AllClean(delimiter, cs[0].args);
  }

  /** The octets of a clean line hold neither line ends nor the delimiter. */
  lemma CleanLine(t: Tables, delimiter: octet, cmd: nat, args: seq<string>)
    requires t.Valid() && cmd < |t.names| && Clean(delimiter, t.names[cmd]) && AllClean(delimiter, args)
    requires delimiter < 0x80 && delimiter as char != ' '
    ensures PlainBuffer(delimiter, ToUtf8(Join([t.names[cmd]] + args)))
  {
    var words := [t.names[cmd]] + args;
    assert forall i :: 0 <= i < |words| ==> Clean(delimiter, words[i]);
    JoinAvoids(words, '\r');
    JoinAvoids(words, '\n');
    JoinAvoids(words, delimiter as char);
    AsciiInEncoding(Join(words), CR);
    AsciiInEncoding(Join(words), LF);
    AsciiInEncoding(Join(words), delimiter);
  }

  lemma FeedLine(t: Tables, delimiter: octet, text: seq<octet>)
    requires t.Valid() && PlainBuffer(delimiter, text)
    ensures Feed(t, delimiter, FRESH, text + [delimiter]) == Framed([], Interpret(t, FromUtf8(text)))
  {
    FeedPlain(t, delimiter, text);
    assert (text + [delimiter])[..|text|] == text;
  }

  lemma InterpretJoined(t: Tables, cmd: nat, words: seq<string>)
    requires t.Valid() && cmd < |t.names| && Distinct(t.names)
    requires |words| >= 1 && words[0] == t.names[cmd] && Spaceless(words)
    ensures Interpret(t, Join(words)) ==
      if WithinLimits(t, cmd, |words| - 1) then [Command(cmd, words[1..])] else []
  {
    SplitOfJoin(words);
    InvokedOnce(t, words, cmd, |t.names|);
  }

  lemma SpacelessWords(delimiter: octet, name: string, args: seq<string>)
    requires Clean(delimiter, name) && AllClean(delimiter, args)
    ensures Spaceless([name] + args)
  {
    forall i | 0 <= i < |[name] + args|
      ensures ' ' !in ([name] + args)[i]
    {
      assert Clean(delimiter, if i == 0 then name else args[i - 1]);
    }
  }

  lemma CleanLineIsRead(t: Tables, delimiter: octet, cmd: nat, args: seq<string>)
    requires t.Valid() && cmd < |t.names| && Clean(delimiter, t.names[cmd]) && AllClean(delimiter, args)
    requires Distinct(t.names)
    ensures Interpret(t, Join([t.names[cmd]] + args))
      == if WithinLimits(t, cmd, |args|) then [Command(cmd, args)] else []
  {
    var words := [t.names[cmd]] + args;
    SpacelessWords(delimiter, t.names[cmd], args);
    InterpretJoined(t, cmd, words);
    assert words[1..] == args;
  }

  lemma CleanCommandReadsBack(t: Tables, delimiter: octet, cmd: nat, args: seq<string>)
    requires t.Valid() && cmd < |t.names| && Clean(delimiter, t.names[cmd])
    requires Distinct(t.names) && delimiter < 0x80 && delimiter as char != ' '
    requires AllClean(delimiter, args)
    ensures Feed(t, delimiter, FRESH, ToUtf8(Print(t, delimiter, cmd, args)))
      == Framed([], if WithinLimits(t, cmd, |args|) then [Command(cmd, args)] else [])
  {
    CleanLine(t, delimiter, cmd, args);
    PrintEncoded(t, delimiter, cmd, args);
    FeedLine(t, delimiter, ToUtf8(Join([t.names[cmd]] + args)));
    DecodesBack(Join([t.names[cmd]] + args));
    CleanLineIsRead(t, delimiter, cmd, args);
  }

  lemma PrintEncoded(t: Tables, delimiter: octet, cmd: nat, args: seq<string>)
    requires t.Valid() && cmd < |t.names| && delimiter < 0x80
    ensures ToUtf8(Print(t, delimiter, cmd, args)) == ToUtf8(Join([t.names[cmd]] + args)) + [delimiter]
  {
    ToUtf8Concat(Join([t.names[cmd]] + args), [delimiter as char]);
    assert ToUtf8([delimiter as char]) == [delimiter];
  }

  /** What `sendCommand` writes: the UTF-8 encoding, but as many octets of it as the text has code units. */
  function Written(s: string): seq<octet> {
    EncodingIsLonger(s);
    ToUtf8(s)[..Units(s)]
  }

  /** A text goes out whole exactly when it is ASCII; anything else loses its end. */
  lemma SentWholeExactlyWhenAscii(s: string)
    ensures Written(s) == ToUtf8(s) <==> IsAscii(s)
    ensures Written(s) <= ToUtf8(s)
  {
    EncodingIsLonger(s);
  }

  /** Each character of a text makes the written part longer by its UTF-16 units, one or, from U+10000 on, two,
      whatever the length of its encoding. */
  lemma WrittenGrowsByUnits(s: string, c: char)
    ensures |Written(s + [c])| == |Written(s)| + if c as int < 0x10000 then 1 else 2
  {
    EncodingIsLonger(s);
    EncodingIsLonger(s + [c]);
    UnitsConcat(s, [c]);
    UnitsOfOne(c);
  }

  /** A printed command that is not ASCII goes out without its delimiter. */
  lemma NonAsciiLosesDelimiter(t: Tables, delimiter: octet, cmd: nat, args: seq<string>)
    requires t.Valid() && cmd < |t.names| && delimiter < 0x80
    requires !IsAscii(Print(t, delimiter, cmd, args))
    ensures Written(Print(t, delimiter, cmd, args)) <= ToUtf8(Join([t.names[cmd]] + args))
  {
    EncodingIsLonger(Print(t, delimiter, cmd, args));
    PrintEncoded(t, delimiter, cmd, args);
  }

  /** From `sendCommand` to `commandReceived`: what one server writes for a command, another one receives as
      that command, alone, exactly when its arguments are within limits and clean and its line is ASCII. */
  lemma PrintedCommandReadsBack(t: Tables, delimiter: octet, cmd: nat, args: seq<string>)
    requires t.Valid() && cmd < |t.names| && Clean(delimiter, t.names[cmd])
    requires Distinct(t.names) && delimiter < 0x80 && delimiter as char != ' '
    ensures Feed(t, delimiter, FRESH, Written(Print(t, delimiter, cmd, args))) == Framed([], [Command(cmd, args)])
      <==>
        && Answers(t, [t.names[cmd]] + args, cmd) && AllClean(delimiter, args)
        && IsAscii(Print(t, delimiter, cmd, args))
  {
    var line := Print(t, delimiter, cmd, args);
    if !AllClean(delimiter, args) {
      OnlyCleanReadsBack(t, delimiter, cmd, args, Written(line));
    } else if IsAscii(line) {
      SentWholeExactlyWhenAscii(line);
      CleanCommandReadsBack(t, delimiter, cmd, args);
    } else {
      NonAsciiLosesDelimiter(t, delimiter, cmd, args);
      CleanLine(t, delimiter, cmd, args);
      FeedPlain(t, delimiter, Written(line));
    }
  }
}
