/**
 The files 0.0.121 and 0.0.122: a list of settings, shown to the user as lines
 "name=value". The shown text travels as a JSON string, and the encoder reads the
 settings back from that JSON string without undoing its escapes.
 */
module ServicesConfig {
  import opened Strings

  datatype Setting = Setting(name: string, value: string, data: string)

  // ----- Printing -----

  function Line(s: Setting): string {
    s.name + "=" + s.value
  }

  function Lines(settings: seq<Setting>): seq<string> {
    if settings == [] then [] else [Line(settings[0])] + Lines(settings[1..])
  }

  function StringifyServicesConfigurationList(settings: seq<Setting>): string {
    Join('\n', Lines(settings))
  }

  /** Quoting of section 7 of RFC 8259, in the form that JSON.stringify gives it. */
  function EscapeChar(c: char): string {
    if c == '\"' then "\\\""
    else if c == '\\' then "\\\\"
    else if c as int >= 32 then [c]
    else if c == '\n' then "\\n"
    else if c == '\r' then "\\r"
    else if c == '\t' then "\\t"
    else if c as int == 8 then "\\b"
    else if c as int == 12 then "\\f"
    else "\\u00" + [HexDigit(c as int / 16), HexDigit(c as int % 16)]
  }

  function HexDigit(d: nat): (c: char)
    requires d < 16
    ensures c as int >= 32 && c != '\"' && c != '\\' && c != '='
  {
    if d < 10 then ('0' as int + d) as char else ('a' as int + d - 10) as char
  }

  function Escape(s: string): string {
    if s == "" then "" else EscapeChar(s[0]) + Escape(s[1..])
  }

  function JsonQuote(s: string): string {
    "\"" + Escape(s) + "\""
  }

  // ----- Reading -----

  /** split(/\\n/): at every backslash followed by the letter n. */
  function SplitLines(s: string): (pieces: seq<string>)
    ensures pieces != []
  {
    if |s| < 2 then [s]
    else if s[0] == '\\' && s[1] == 'n' then [""] + SplitLines(s[2..])
    else
      var rest := SplitLines(s[1..]);
      [[s[0]] + rest[0]] + rest[1..]
  }

  /** args[0] and `${args[1]}` for args = line.split('='). */
  function ReadLine(line: string): Setting {
    var after := AfterFirst('=', line);
    Setting(BeforeFirst('=', line), if after.None? then "undefined" else BeforeFirst('=', after.value), "")
  }

  function ReadLines(lines: seq<string>): seq<Setting> {
    if lines == [] then []
    else if lines[0] == "" then ReadLines(lines[1..])
    else [ReadLine(lines[0])] + ReadLines(lines[1..])
  }

  function EncodeServicesConfigurationList(content: string): seq<Setting> {
    var stringContent := if |content| < 2 then "" else content[1..|content| - 1];
    ReadLines(SplitLines(stringContent))
  }

  /** What comes back after a list is shown, quoted and encoded. */
  function RoundTrip(settings: seq<Setting>): seq<Setting> {
    EncodeServicesConfigurationList(JsonQuote(StringifyServicesConfigurationList(settings)))
  }

  // ----- Lists are read line by line -----

  function Read(s: string): seq<Setting> {
    ReadLines(SplitLines(s))
  }

  lemma {:induction false} EscapeConcat(x: string, y: string)
    ensures Escape(x + y) == Escape(x) + Escape(y)
  {
    if x == "" {
      assert x + y == y;
    } else {
      assert (x + y)[1..] == x[1..] + y;
      EscapeConcat(x[1..], y);
    }
  }

  lemma {:induction false} ReadLinesConcat(xs: seq<string>, ys: seq<string>)
    ensures ReadLines(xs + ys) == ReadLines(xs) + ReadLines(ys)
  {
    if xs == [] {
      assert xs + ys == ys;
    } else {
      assert (xs + ys)[1..] == xs[1..] + ys;
      ReadLinesConcat(xs[1..], ys);
    }
  }

  lemma SplitStep(c: char, s: string)
    requires s == "" || c != '\\' || s[0] != 'n'
    ensures SplitLines([c] + s) == [[c] + SplitLines(s)[0]] + SplitLines(s)[1..]
  {
    if s != "" {
      assert ([c] + s)[1..] == s;
    } else {
      assert [c] + "" == [c];
    }
  }

  lemma FirstPieceGrows(c: char, xs: seq<string>, ys: seq<string>)
    requires xs != []
    ensures [[c] + (xs + ys)[0]] + (xs + ys)[1..] == [[c] + xs[0]] + xs[1..] + ys
  {
  }

  lemma {:induction false} SplitAtNewline(x: string, y: string)
    ensures SplitLines(x + "\\n" + y) == SplitLines(x) + SplitLines(y)
    decreases |x|
  {
    var s := x + "\\n" + y;
    if x == "" {
      assert s[2..] == y;
    } else if |x| >= 2 && x[0] == '\\' && x[1] == 'n' {
      assert s[2..] == x[2..] + "\\n" + y;
      SplitAtNewline(x[2..], y);
    } else {
      var text := x[1..] + "\\n" + y;
      assert s == [x[0]] + text && x == [x[0]] + x[1..];
      SplitStep(x[0], text);
      SplitStep(x[0], x[1..]);
      SplitAtNewline(x[1..], y);
      FirstPieceGrows(x[0], SplitLines(x[1..]), SplitLines(y));
    }
  }

  /** The first piece ends at the first backslash followed by n. */
  lemma {:induction false} FirstPiece(s: string) returns (piece: string, rest: string)
    ensures SplitLines(s) == [s] || (s == piece + "\\n" + rest && SplitLines(s) == [piece] + SplitLines(rest))
  {
    piece, rest := "", "";
    if |s| >= 2 {
      if s[0] == '\\' && s[1] == 'n' {
        rest := s[2..];
      } else {
        piece, rest := FirstPiece(s[1..]);
        piece := [s[0]] + piece;
        assert s == [s[0]] + s[1..];
      }
    }
  }

  /** The settings read back from one printed setting. */
  function ReadBack(s: Setting): seq<Setting> {
    Read(Escape(Line(s)))
  }

  /** An escaped newline between two texts separates what is read from them. */
  lemma ReadJoined(line: string, rest: string)
    ensures Read(Escape(line + ['\n'] + rest)) == Read(Escape(line)) + Read(Escape(rest))
  {
    EscapeConcat(line + ['\n'], rest);
    EscapeConcat(line, ['\n']);
    assert Escape(['\n']) == "\\n";
    SplitAtNewline(Escape(line), Escape(rest));
    ReadLinesConcat(SplitLines(Escape(line)), SplitLines(Escape(rest)));
  }

  lemma RoundTripStep(settings: seq<Setting>)
    ensures settings == [] ==> RoundTrip(settings) == []
    ensures settings != [] ==> RoundTrip(settings) == ReadBack(settings[0]) + RoundTrip(settings[1..])
  {
    Unquote(StringifyServicesConfigurationList(settings));
    assert SplitLines("") == [""];
    if settings != [] {
      var rest := StringifyServicesConfigurationList(settings[1..]);
      Unquote(rest);
      assert Lines(settings)[1..] == Lines(settings[1..]);
      if |settings| > 1 {
        assert Lines(settings[1..]) != [];
        ReadJoined(Line(settings[0]), rest);
      }
    }
  }

  lemma Unquote(text: string)
    ensures EncodeServicesConfigurationList(JsonQuote(text)) == Read(Escape(text))
  {
    var quoted := JsonQuote(text);
    assert quoted[1..|quoted| - 1] == Escape(text);
  }

  // ----- What is shown and what is read -----

  /** A setting is shown on its own line, name before value. */
  lemma {:induction false} ShownLines(settings: seq<Setting>)
    requires forall i :: 0 <= i < |settings| ==> '\n' !in settings[i].name && '\n' !in settings[i].value
    ensures var lines := SplitOn('\n', StringifyServicesConfigurationList(settings));
            if settings == [] then lines == [""]
            else
              && |lines| == |settings|
              && forall i :: 0 <= i < |lines| ==> lines[i] == settings[i].name + "=" + settings[i].value
  {
    LinesAt(settings);
    SplitOfJoin('\n', Lines(settings));
  }

  lemma {:induction false} LinesAt(settings: seq<Setting>)
    ensures |Lines(settings)| == |settings|
    ensures forall i :: 0 <= i < |settings| ==> Lines(settings)[i] == settings[i].name + "=" + settings[i].value
  {
    if settings != [] {
      LinesAt(settings[1..]);
    }
  }

  /** The name ends at the first equals sign and the value at the second. */
  lemma ReadLineCases(name: string, value: string, rest: string)
    requires '=' !in name && '=' !in value
    ensures ReadLine(name) == Setting(name, "undefined", "")
    ensures ReadLine(name + ['='] + value) == Setting(name, value, "")
    ensures ReadLine(name + ['='] + (value + ['='] + rest)) == Setting(name, value, "")
  {
    BeforeFirstIsClean('=', name);
    BeforeFirstIsClean('=', value);
    SplitAtFirst('=', name, value);
    SplitAtFirst('=', name, value + ['='] + rest);
    SplitAtFirst('=', value, rest);
  }

  /** The encoder takes the quotes off, reads line by line and leaves out empty lines. */
  lemma EncodedLineByLine(line: string, x: string, y: string)
    requires line != "" && '\\' !in line
    ensures EncodeServicesConfigurationList("\"" + "" + "\"") == []
    ensures EncodeServicesConfigurationList("\"" + line + "\"") == [ReadLine(line)]
    ensures EncodeServicesConfigurationList("\"" + (x + "\\n" + y) + "\"")
            == EncodeServicesConfigurationList("\"" + x + "\"") + EncodeServicesConfigurationList("\"" + y + "\"")
  {
    QuotesAreRemoved("");
    QuotesAreRemoved(line);
    QuotesAreRemoved(x);
    QuotesAreRemoved(y);
    QuotesAreRemoved(x + "\\n" + y);
    NothingToSplit(line);
    SplitAtNewline(x, y);
    ReadLinesConcat(SplitLines(x), SplitLines(y));
    assert [line][1..] == [];
  }

  lemma QuotesAreRemoved(content: string)
    ensures EncodeServicesConfigurationList("\"" + content + "\"") == Read(content)
  {
    var quoted := "\"" + content + "\"";
    assert quoted[1..|quoted| - 1] == content;
  }

  /** Quotation marks, backslashes and control characters are escaped (section 7 of RFC 8259), and nothing else. */
  lemma EscapedCharacters(c: char)
    ensures EscapeChar(c) == [c] <==> c as int >= 32 && c != '\"' && c != '\\'
    ensures EscapeChar(c) != [c] ==> |EscapeChar(c)| >= 2 && EscapeChar(c)[0] == '\\'
    ensures EscapeChar('\n') == "\\n"
  {
  }

  // ----- Which lists survive -----

  /** No equals sign and nothing that JSON escapes. */
  predicate Clean(s: string) {
    forall i :: 0 <= i < |s| ==> s[i] != '=' && EscapeChar(s[i]) == [s[i]]
  }

  predicate Faithful(s: Setting) {
    Clean(s.name) && Clean(s.value) && s.data == ""
  }

  lemma {:induction false} EscapeOfClean(s: string)
    requires Clean(s)
    ensures Escape(s) == s
  {
    if s != "" {
      EscapeOfClean(s[1..]);
      assert s == [s[0]] + s[1..];
    }
  }

  lemma {:induction false} NothingToSplit(s: string)
    requires '\\' !in s
    ensures SplitLines(s) == [s]
  {
    if |s| >= 2 {
      NothingToSplit(s[1..]);
      assert s == [s[0]] + s[1..];
    }
  }

  lemma EscapeOfLine(s: Setting)
    ensures Escape(Line(s)) == Escape(s.name) + ['='] + Escape(s.value)
    ensures Line(s) == s.name + ['='] + s.value
  {
    EscapeConcat(s.name + "=", s.value);
    EscapeConcat(s.name, "=");
    assert Escape("=") == "=";
  }

  lemma FaithfulIsReadBack(s: Setting)
    requires Faithful(s)
    ensures ReadBack(s) == [s]
  {
    EscapeOfLine(s);
    EscapeOfClean(s.name);
    EscapeOfClean(s.value);
    assert EscapeChar('\\') != ['\\'];
    NothingToSplit(Line(s));
    SplitAtFirst('=', s.name, s.value);
    BeforeFirstIsClean('=', s.value);
    FirstLineIsRead(Line(s), []);
    assert [Line(s)] + [] == [Line(s)];
  }

  // ----- Nothing else survives -----

  predicate NoControls(s: string) {
    forall i :: 0 <= i < |s| ==> s[i] as int >= 32
  }

  lemma EscapeCharHasNoControls(c: char)
    ensures NoControls(EscapeChar(c))
    ensures '=' in EscapeChar(c) ==> c == '='
    ensures |EscapeChar(c)| >= 1
  {
  }

  lemma {:induction false} EscapeHasNoControls(s: string)
    ensures NoControls(Escape(s))
    ensures '=' in Escape(s) ==> '=' in s
  {
    if s != "" {
      EscapeCharHasNoControls(s[0]);
      EscapeHasNoControls(s[1..]);
    }
  }

  /** What reading a line can give: no control characters and no equals signs. */
  predicate Readable(s: Setting) {
    NoControls(s.name) && NoControls(s.value) && '=' !in s.name && '=' !in s.value && s.data == ""
  }

  lemma PartHasNoControls(s: string, part: string, from: nat)
    requires NoControls(s) && from <= |s| && part <= s[from..]
    ensures NoControls(part)
  {
    assert forall i :: 0 <= i < |part| ==> part[i] == s[from..][i] == s[from + i];
  }

  lemma LineIsReadable(line: string)
    requires NoControls(line)
    ensures Readable(ReadLine(line))
  {
    BeforeFirstIsClean('=', line);
    var before, after := BeforeFirst('=', line), AfterFirst('=', line);
    assert line[0..] == line;
    PartHasNoControls(line, before, 0);
    if after.Some? {
      BeforeFirstIsClean('=', after.value);
      assert line[|before| + 1..] == after.value;
      PartHasNoControls(line, BeforeFirst('=', after.value), |before| + 1);
    }
  }

  lemma {:induction false} LinesAreReadable(lines: seq<string>)
    requires forall i :: 0 <= i < |lines| ==> NoControls(lines[i])
    ensures forall i :: 0 <= i < |ReadLines(lines)| ==> Readable(ReadLines(lines)[i])
  {
    if lines != [] {
      LinesAreReadable(lines[1..]);
      LineIsReadable(lines[0]);
    }
  }

  lemma {:induction false} PiecesHaveNoControls(s: string)
    requires NoControls(s)
    ensures forall i :: 0 <= i < |SplitLines(s)| ==> NoControls(SplitLines(s)[i])
  {
    if |s| >= 2 {
      if s[0] == '\\' && s[1] == 'n' {
        PiecesHaveNoControls(s[2..]);
      } else {
        PiecesHaveNoControls(s[1..]);
      }
    }
  }

  /** A text with an equals sign always yields a setting. */
  lemma {:induction false} EqualsSignIsRead(s: string)
    requires '=' in s
    ensures |Read(s)| >= 1
    decreases |s|
  {
    var piece, rest := FirstPiece(s);
    if SplitLines(s) != [s] {
      ReadLinesConcat([piece], SplitLines(rest));
      if piece == "" {
        EqualsSignIsRead(rest);
      }
    }
  }

  /** How many characters of s are backslashes. */
  function Backslashes(s: string): nat {
    if s == "" then 0 else (if s[0] == '\\' then 1 else 0) + Backslashes(s[1..])
  }

  lemma {:induction false} BackslashesConcat(x: string, y: string)
    ensures Backslashes(x + y) == Backslashes(x) + Backslashes(y)
    ensures Backslashes(x) <= |x|
  {
    if x == "" {
      assert x + y == y;
    } else {
      assert (x + y)[1..] == x[1..] + y;
      BackslashesConcat(x[1..], y);
    }
  }

  /** Without control characters, each escape adds one character, which is a backslash. */
  lemma {:induction false} EscapeAddsBackslashes(s: string)
    requires NoControls(s)
    ensures |Escape(s)| - |s| == Backslashes(Escape(s)) - Backslashes(s) >= 0
    ensures |Escape(s)| == |s| && '=' !in s ==> Clean(s)
  {
    if s != "" {
      EscapeAddsBackslashes(s[1..]);
      var e := EscapeChar(s[0]);
      BackslashesConcat(e, Escape(s[1..]));
      assert s[0] in s;
      assert |e| == 2 ==> e[1..][1..] == "";
      assert |e| == 1 ==> e[1..] == "";
      assert s == [s[0]] + s[1..];
    }
  }

  /** Escaping never inserts a backslash followed by n and no more than that. */
  lemma NoSplitInsideValue(value: string, rest: string)
    requires NoControls(value)
    ensures Escape(value) != value + "\\n" + rest
  {
    var tail := "\\n" + rest;
    EscapeAddsBackslashes(value);
    BackslashesConcat(value, tail);
    BackslashesConcat("\\n", rest);
    BackslashesConcat(rest, "");
    assert "\\n"[1..] == "n" && "n"[1..] == "";
    assert Backslashes("\\n") == 1;
    assert value + "\\n" + rest == value + tail;
  }

  /** A printed setting that reads back as exactly itself was faithful. */
  lemma ReadBackIsFaithful(s: Setting)
    requires ReadBack(s) == [s]
    ensures Faithful(s)
  {
    var e := Escape(Line(s));
    EscapeHasNoControls(Line(s));
    PiecesHaveNoControls(e);
    LinesAreReadable(SplitLines(e));
    assert Readable(ReadLines(SplitLines(e))[0]);
    EscapeOfLine(s);
    EscapeHasNoControls(s.name);
    EscapeHasNoControls(s.value);
    SplitAtFirst('=', Escape(s.name), Escape(s.value));
    BeforeFirstIsClean('=', Escape(s.value));
    EscapeAddsBackslashes(s.name);
    EscapeAddsBackslashes(s.value);
    var piece, rest := FirstPiece(e);
    if SplitLines(e) == [e] {
      FirstLineIsRead(e, []);
      assert [e] + [] == [e];
    } else {
      SplitPieceIsNotFaithful(s, piece, rest);
    }
  }

  lemma FirstLineIsRead(line: string, lines: seq<string>)
    ensures ReadLines([line] + lines) == if line == "" then ReadLines(lines) else [ReadLine(line)] + ReadLines(lines)
  {
    assert ([line] + lines)[1..] == lines;
  }

  lemma BrokenValueDiffers(s: Setting, piece: string, rest: string)
    requires Readable(s) && |Escape(s.name)| < |piece|
    requires Escape(s.name) + ['='] + Escape(s.value) == piece + "\\n" + rest
    ensures piece != "" && ReadLine(piece).value != s.value
  {
    EscapeHasNoControls(s.name);
    EscapeHasNoControls(s.value);
    var v := BrokenInValue(Escape(s.name), Escape(s.value), piece, rest);
    SplitAtFirst('=', Escape(s.name), v);
    BeforeFirstIsClean('=', v);
    NoSplitInsideValue(s.value, rest);
  }

  lemma BrokenNameReadsTwice(s: Setting, piece: string, rest: string)
    requires Readable(s) && |Escape(s.name)| >= |piece|
    requires Escape(s.name) + ['='] + Escape(s.value) == piece + "\\n" + rest
    ensures piece != "" && |Read(rest)| >= 1
  {
    var name := Escape(s.name);
    var e := piece + "\\n" + rest;
    assert e[|name|] == '=' && e[|piece|] == '\\' && e[|piece| + 1] == 'n';
    assert rest[|name| - |piece| - 2] == '=';
    EqualsSignIsRead(rest);
    if piece == "" {
      assert name[0] == e[0] && name[1] == e[1];
      NameStartsPlainly(s.name);
    }
  }

  /** The other case of the proof: the printed setting is broken into several pieces. */
  lemma SplitPieceIsNotFaithful(s: Setting, piece: string, rest: string)
    requires Readable(s)
    requires Escape(s.name) + ['='] + Escape(s.value) == piece + "\\n" + rest
    ensures ReadLines([piece] + SplitLines(rest)) != [s]
  {
    FirstLineIsRead(piece, SplitLines(rest));
    if |Escape(s.name)| < |piece| {
      BrokenValueDiffers(s, piece, rest);
      assert ReadLines([piece] + SplitLines(rest))[0] != s;
    } else {
      BrokenNameReadsTwice(s, piece, rest);
      assert |ReadLines([piece] + SplitLines(rest))| >= 2;
    }
  }

  lemma BrokenInValue(name: string, value: string, piece: string, rest: string) returns (v: string)
    requires name + ['='] + value == piece + "\\n" + rest
    requires |name| < |piece| && '=' !in value
    ensures piece == name + ['='] + v && value == v + "\\n" + rest && '=' !in v
  {
    v := piece[|name| + 1..];
    var e := piece + "\\n" + rest;
    assert e[..|name|] == name && e[|name|] == '=' && e[|name| + 1..] == value;
    assert piece[..|name|] == e[..|name|] && piece[|name|] == e[|name|];
    assert e[|name| + 1..] == v + "\\n" + rest;
    assert forall i :: 0 <= i < |v| ==> v[i] == value[i];
  }

  lemma NameStartsPlainly(name: string)
    requires NoControls(name) && |Escape(name)| >= 2
    ensures Escape(name)[0] != '\\' || Escape(name)[1] != 'n'
  {
    assert name[0] as int >= 32;
  }

  lemma {:induction false} RoundTripIsLongEnough(settings: seq<Setting>)
    ensures |RoundTrip(settings)| >= |settings|
  {
    RoundTripStep(settings);
    if settings != [] {
      RoundTripIsLongEnough(settings[1..]);
      var s := settings[0];
      EscapeOfLine(s);
      assert Escape(Line(s))[|Escape(s.name)|] == '=';
      EqualsSignIsRead(Escape(Line(s)));
    }
  }

  /**
   A list comes back unchanged if and only if its settings have no data, and their
   names and values contain no equals sign and no character that JSON escapes.
   */
  lemma {:induction false} RoundTripIff(settings: seq<Setting>)
    ensures RoundTrip(settings) == settings <==> forall i :: 0 <= i < |settings| ==> Faithful(settings[i])
  {
    RoundTripStep(settings);
    if settings != [] {
      var s, rest := settings[0], settings[1..];
      RoundTripIff(rest);
      RoundTripIsLongEnough(rest);
      RoundTripIsLongEnough([s]);
      RoundTripStep([s]);
      RoundTripStep([]);
      assert [s][1..] == [] && settings == [s] + rest;
      if Faithful(s) {
        FaithfulIsReadBack(s);
      }
      if RoundTrip(settings) == settings {
        assert |ReadBack(s)| == 1;
        assert ReadBack(s) == [s] && RoundTrip(rest) == rest;
        ReadBackIsFaithful(s);
      }
    }
  }
}
