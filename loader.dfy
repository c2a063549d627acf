/** The C++ side of the library: the "key=value" parser, the ':'-separated
    list parser, and vector_loader's first scan, which collects the options,
    hints and messages of a vector file from its '%' comment lines. */
module Loader {
  import opened CText
  import opened Streams
  import opened Tokenizer
  import opened Metadata

  // ---------------------------------------------------------------- register_parameter

  /** The key and the value register_parameter takes from a line: the key is
      everything before the first '='; without an '=' the whole line is the
      key and the value is "1"; an empty value after the '=' is "0". */
  function Parameter(line: CString): (r: (CString, CString))
    ensures '=' !in r.0 && r.1 != ""
  {
    var k := IndexOf(line, '=');
    if k == |line| then (line, "1")
    else (line[..k], if k + 1 == |line| then "0" else line[k + 1..])
  }

  /** A line without '=' is a flag set to "1". */
  lemma ParameterFlag(line: CString)
    requires '=' !in line
    ensures Parameter(line) == (line, "1")
  {
    IndexOfAbsent(line, '=');
  }

  /** "key=value" gives back key and value; "key=" gives the value "0". */
  lemma ParameterPair(key: CString, value: CString)
    requires '=' !in key
    ensures '\0' !in key + "=" + value
    ensures Parameter(key + "=" + value) == (key, if value == "" then "0" else value)
  {
    var line := key + "=" + value;
    assert line[..|key|] == key;
    assert line[|key|] == '=';
    IndexOfFirst(line, '=', |key|);
    assert line[|key| + 1..] == value;
  }

  /** std::map::insert: a key already present keeps the value it has. */
  function Insert(m: map<string, string>, key: string, value: string): (r: map<string, string>)
    ensures r.Keys == m.Keys + {key}
    ensures r[key] == if key in m then m[key] else value
    ensures forall k :: k in m ==> r[k] == m[k]
  {
    if key in m then m else m[key := value]
  }

  /** The first value inserted under a key is the one the map keeps. */
  lemma InsertKeepsFirst(m: map<string, string>, key: string, first: string, second: string)
    ensures Insert(Insert(m, key, first), key, second) == Insert(m, key, first)
    ensures key !in m ==> Insert(Insert(m, key, first), key, second)[key] == first
  {
  }

  /** register_parameter's walk to the first '='. */
  method SplitParameter(line: CString) returns (key: CString, value: CString)
    ensures (key, value) == Parameter(line)
  {
    var i := 0;
    while i < |line| && line[i] != '='
      invariant i <= |line| && '=' !in line[..i]
    {
      assert line[..i + 1] == line[..i] + [line[i]];
      i := i + 1;
    }
    if i == |line| {
      assert line[..i] == line;
      IndexOfAbsent(line, '=');
      key, value := line, "1";
    } else {
      IndexOfFirst(line, '=', i);
      key := line[..i];
      value := if i + 1 == |line| then "0" else line[i + 1..];
    }
  }

  // ---------------------------------------------------------------- cut_lf

  /** cut_lf: one trailing newline removed, nothing else changed.  On an
      empty line the source looks at the byte before the line, which in its
      only use is the '%' of the buffer, so nothing changes there either. */
  function CutLf(line: CString): (r: CString)
    ensures r == line || line == r + "\n"
    ensures line == r + "\n" <==> |line| > 0 && line[|line| - 1] == '\n'
  {
    if |line| > 0 && line[|line| - 1] == '\n' then
      assert line == line[..|line| - 1] + "\n";
      line[..|line| - 1]
    else line
  }

  // ---------------------------------------------------------------- process_special_line

  /** What vector_loader has collected: the options ("%-" lines), the hints
      ("%*" lines) and the messages ("%?" lines, in order). */
  datatype Tables = Tables(options: map<string, string>, hints: map<string, string>, messages: seq<string>)

  const EMPTY: Tables := Tables(map[], map[], [])

  /** process_special_line on the text after the '%'. */
  function Special(t: Tables, line: CString): (r: Tables)
    ensures |line| == 0 || line[0] !in "-*?" ==> r == t
    ensures r.options.Keys >= t.options.Keys && r.hints.Keys >= t.hints.Keys
    ensures forall k :: k in t.options ==> r.options[k] == t.options[k]
    ensures forall k :: k in t.hints ==> r.hints[k] == t.hints[k]
    ensures |r.messages| >= |t.messages| && r.messages[..|t.messages|] == t.messages
  {
    if |line| == 0 then t
    else
      var p := Parameter(line[1..]);
      if line[0] == '-' then t.(options := Insert(t.options, p.0, p.1))
      else if line[0] == '*' then t.(hints := Insert(t.hints, p.0, p.1))
      else if line[0] == '?' then t.(messages := t.messages + [line[1..]])
      else t
  }

  /** process_special_line dispatches on the first character and hands
      the rest of the line on. */
  lemma SpecialOf(t: Tables, c: char, rest: CString)
    requires c != '\0'
    ensures var p := Parameter(rest);
      Special(t, [c] + rest) ==
        if c == '-' then t.(options := Insert(t.options, p.0, p.1))
        else if c == '*' then t.(hints := Insert(t.hints, p.0, p.1))
        else if c == '?' then t.(messages := t.messages + [rest])
        else t
  {
    assert ([c] + rest)[1..] == rest;
  }

  /** "-key=value" sets an option, unless the key is already there; an
      empty value is "0". */
  lemma SpecialOption(t: Tables, key: CString, value: CString)
    requires '=' !in key
    ensures Special(t, "-" + (key + "=" + value))
         == t.(options := Insert(t.options, key, if value == "" then "0" else value))
  {
    ParameterPair(key, value);
    SpecialOf(t, '-', key + "=" + value);
  }

  /** "*key=value" sets a hint, unless the key is already there. */
  lemma SpecialHint(t: Tables, key: CString, value: CString)
    requires '=' !in key
    ensures Special(t, "*" + (key + "=" + value))
         == t.(hints := Insert(t.hints, key, if value == "" then "0" else value))
  {
    ParameterPair(key, value);
    SpecialOf(t, '*', key + "=" + value);
  }

  /** "?text" appends the text to the messages. */
  lemma SpecialMessage(t: Tables, text: CString)
    ensures Special(t, "?" + text) == t.(messages := t.messages + [text])
  {
    SpecialOf(t, '?', text);
  }

  // ---------------------------------------------------------------- first scan

  /** A chunk that filled the buffer without reaching the end of its line,
      with input still to come after it: the line does not fit in the
      buffer.  A last line of exactly 1023 characters and no newline fits. */
  predicate TooLong(chunk: string, rest: string) {
    |chunk| == MAXIMUM_LINE_LENGTH - 1 && chunk[|chunk| - 1] != '\n' && rest != []
  }

  /** The chunk fgets stores is too long exactly when the line it starts
      reading, with its newline if it has one, has more characters than the
      buffer holds beside its NUL. */
  lemma TooLongIffLongLine(s: string)
    ensures var c := FgetsChunk(s, MAXIMUM_LINE_LENGTH - 1);
      TooLong(c, s[|c|..]) <==> IndexOf(s, '\n') >= MAXIMUM_LINE_LENGTH - 1 && |s| > MAXIMUM_LINE_LENGTH - 1
  {
    var c := FgetsChunk(s, MAXIMUM_LINE_LENGTH - 1);
    var k := IndexOf(s, '\n');
    FgetsChunkSpec(s, MAXIMUM_LINE_LENGTH - 1);
    if k >= MAXIMUM_LINE_LENGTH - 1 {
      assert c == s[..MAXIMUM_LINE_LENGTH - 1];
      assert c[|c| - 1] == s[|c| - 1];
      assert s[|c| - 1] in s[..k];
    }
  }

  /** The comment effect of one chunk: a chunk starting with '%' has its
      newline cut and goes to process_special_line; anything else is
      skipped.  The buffer is read up to its first NUL. */
  function Chunk(t: Tables, chunk: string): (r: Tables)
    ensures (|chunk| == 0 || chunk[0] != '%') ==> r == t
  {
    var b := CStr(chunk);
    if |b| > 0 && b[0] == '%' then Special(t, CutLf(b[1..])) else t
  }

  /** The first scan over input s, from tables t: None when a line does not
      fit in the buffer (std::length_error). */
  function Scan(t: Tables, s: string): (r: Option<Tables>)
    decreases |s|
  {
    if s == [] then Some(t)
    else
      var c := FgetsChunk(s, MAXIMUM_LINE_LENGTH - 1);
      if TooLong(c, s[|c|..]) then None else Scan(Chunk(t, c), s[|c|..])
  }

  /** A line that fits is read whole: a '%' line goes to
      process_special_line without its newline, any other line is skipped. */
  lemma {:induction false} ScanLine(t: Tables, l: CString, rest: string)
    requires '\n' !in l && |l| + 1 < MAXIMUM_LINE_LENGTH
    ensures Scan(t, l + "\n" + rest) == Scan(if |l| > 0 && l[0] == '%' then Special(t, l[1..]) else t, rest)
  {
    var c := l + "\n";
    FgetsWholeLine(l, rest, MAXIMUM_LINE_LENGTH - 1);
    assert (l + "\n" + rest)[|c|..] == rest;
    CStrWhole(c);
    if |l| > 0 && l[0] == '%' {
      assert c[1..] == l[1..] + "\n";
      assert CutLf(c[1..]) == l[1..];
    }
  }

  /** Lines that do not start with '%' (the count line and the elements)
      leave the tables alone. */
  lemma {:induction false} ScanPlainLines(t: Tables, ls: seq<string>, rest: string)
    requires forall i :: 0 <= i < |ls| ==>
      '\n' !in ls[i] && '\0' !in ls[i] && |ls[i]| + 1 < MAXIMUM_LINE_LENGTH && (|ls[i]| == 0 || ls[i][0] != '%')
    ensures Scan(t, Lines(ls) + rest) == Scan(t, rest)
  {
    if ls != [] {
      var l: CString := ls[0];
      assert |l| == 0 || l[0] != '%';
      ConcatAssoc(l + "\n", Lines(ls[1..]), rest);
      ScanLine(t, l, Lines(ls[1..]) + rest);
      assert Scan(t, Lines(ls) + rest) == Scan(t, Lines(ls[1..]) + rest);
      ScanPlainLines(t, ls[1..], rest);
    } else {
      assert Lines(ls) + rest == rest;
    }
  }

  /** A '%' line that fits goes to process_special_line without the '%'
      and its newline. */
  lemma ScanSpecialLine(t: Tables, body: string, rest: string)
    requires '\n' !in body && '\0' !in body && |body| + 2 < MAXIMUM_LINE_LENGTH
    ensures Scan(t, "%" + body + "\n" + rest) == Scan(Special(t, body), rest)
  {
    var l: CString := "%" + body;
    assert l[1..] == body;
    ScanLine(t, l, rest);
  }

  /** The header is read back as the option format=1.1. */
  lemma ScanHeader(t: Tables, package: CString, rest: string)
    requires '\n' !in package && |package| + 16 < MAXIMUM_LINE_LENGTH
    ensures Scan(t, HeaderText(package) + rest) == Scan(t.(options := Insert(t.options, "format", "1.1")), rest)
  {
    var r3 := "%%Created with " + package + "\n" + rest;
    var r2 := "%-format=1.1\n" + r3;
    HeaderSplit(package, rest);
    ScanVersionLine(t, r2);
    ScanFormatLine(t, r3);
    ScanCreatedLine(t.(options := Insert(t.options, "format", "1.1")), package, rest);
  }

  lemma HeaderSplit(package: string, rest: string)
    ensures HeaderText(package) + rest
         == "%!VCTR\n" + ("%-format=1.1\n" + ("%%Created with " + package + "\n" + rest))
  {
    var a, b, c := "%!VCTR\n", "%-format=1.1\n", "%%Created with " + package + "\n";
    assert HeaderText(package) == a + b + c;
    ConcatAssoc(a + b, c, rest);
    ConcatAssoc(a, b, c + rest);
  }

  /** The version line leaves the tables alone. */
  lemma ScanVersionLine(t: Tables, rest: string)
    ensures Scan(t, "%!VCTR\n" + rest) == Scan(t, rest)
  {
    var b := VersionBody();
    assert "%!VCTR\n" == "%" + b + "\n";
    ScanSpecialLine(t, b, rest);
    assert Special(t, b) == t;
  }

  /** The format line sets the option format=1.1. */
  lemma ScanFormatLine(t: Tables, rest: string)
    ensures Scan(t, "%-format=1.1\n" + rest) == Scan(t.(options := Insert(t.options, "format", "1.1")), rest)
  {
    var b, key, value := FormatBody();
    assert "%-format=1.1\n" == "%" + b + "\n";
    ScanSpecialLine(t, b, rest);
    SpecialOption(t, key, value);
  }

  /** The "Created with" line leaves the tables alone. */
  lemma ScanCreatedLine(t: Tables, package: CString, rest: string)
    requires '\n' !in package && |package| + 16 < MAXIMUM_LINE_LENGTH
    ensures Scan(t, "%%Created with " + package + "\n" + rest) == Scan(t, rest)
  {
    var b := CreatedBody(package);
    assert "%%Created with " == "%" + "%Created with ";
    assert "%%Created with " + package + "\n" + rest == "%" + b + "\n" + rest;
    ScanSpecialLine(t, b, rest);
    assert Special(t, b) == t;
  }

  /** The text of the version line after its '%'. */
  lemma VersionBody() returns (b: CString)
    ensures b == "!VCTR" && '\n' !in b && b[0] == '!'
  {
    b := "!VCTR";
  }

  /** The text of the format line after its '%'. */
  lemma FormatBody() returns (b: CString, key: CString, value: CString)
    ensures key == "format" && '=' !in key && value == "1.1" && value != ""
    ensures b == "-" + (key + "=" + value) && b == "-format=1.1" && '\n' !in b
  {
    key, value := "format", "1.1";
    b := "-format=1.1";
    assert b == "-" + (key + "=" + value);
  }

  /** The text of the "Created with" line after its '%'. */
  lemma CreatedBody(package: CString) returns (b: CString)
    requires '\n' !in package
    ensures b == "%Created with " + package && '\n' !in b && b[0] == '%'
  {
    CreatedChars();
    NotInConcat('\n', "%Created with ", package);
    NotInConcat('\0', "%Created with ", package);
    b := "%Created with " + package;
  }

  lemma CreatedChars()
    ensures '\n' !in "%Created with " && '\0' !in "%Created with "
  {
  }

  /** A hint line is read back as that hint, unless it is already set. */
  lemma ScanHint(t: Tables, hint: CString, parameter: int, rest: string)
    requires '\n' !in hint && '=' !in hint && |hint| + |IntToString(parameter)| + 4 < MAXIMUM_LINE_LENGTH
    ensures Scan(t, HintLine(hint, parameter) + rest)
         == Scan(t.(hints := Insert(t.hints, hint, IntToString(parameter))), rest)
  {
    var p, body := HintBody(hint, parameter);
    assert HintLine(hint, parameter) + rest == "%" + body + "\n" + rest by {
      assert "%*" == "%" + "*";
    }
    ScanSpecialLine(t, body, rest);
    SpecialHint(t, hint, p);
  }

  /** The text of a hint line after its '%', and its value. */
  lemma HintBody(hint: CString, parameter: int) returns (p: CString, b: CString)
    requires '\n' !in hint
    ensures p == IntToString(parameter) && p != ""
    ensures b == "*" + (hint + "=" + p) && '\n' !in b && |b| == |hint| + |p| + 2
  {
    p := IntToString(parameter);
    NotInConcat('\n', hint, "=");
    NotInConcat('\0', hint, "=");
    NotInConcat('\n', hint + "=", p);
    NotInConcat('\0', hint + "=", p);
    NotInConcat('\n', "*", hint + "=" + p);
    NotInConcat('\0', "*", hint + "=" + p);
    b := "*" + (hint + "=" + p);
  }

  /** A message line is read back as the flattened message, appended. */
  lemma ScanMessage(t: Tables, comment: CString, rest: string)
    requires |comment| + 3 < MAXIMUM_LINE_LENGTH
    ensures Scan(t, MessageLine(comment) + rest) == Scan(t.(messages := t.messages + [Flatten(comment)]), rest)
  {
    var f := Flatten(comment);
    assert '\0' !in f by {
      forall i | 0 <= i < |f| ensures f[i] != '\0' {
        assert comment[i] in comment;
      }
    }
    var body: CString := "?" + f;
    assert '\n' !in body by {
      assert forall x :: x in body ==> x in "?" || x in f;
    }
    assert |body| == |comment| + 1;
    assert MessageLine(comment) + rest == "%" + body + "\n" + rest by {
      assert "%?" == "%" + "?";
    }
    ScanSpecialLine(t, body, rest);
    SpecialMessage(t, f);
  }

  /** The as-written length check: buff[size - 1] is set to NUL before
      fgets(buff, size, f), and std::length_error is thrown when it is not
      NUL afterwards.  fgets stores the chunk and a NUL after it, so the
      byte at size - 1 is either that NUL or the sentinel untouched. */
  function AfterFgets(buff: seq<char>, chunk: string): (r: seq<char>)
    requires |chunk| < |buff|
    ensures |r| == |buff|
  {
    chunk + ['\0'] + buff[|chunk| + 1..]
  }

  predicate LengthErrorAsWritten(buff: seq<char>, chunk: string)
    requires |buff| == MAXIMUM_LINE_LENGTH && |chunk| < MAXIMUM_LINE_LENGTH
  {
    AfterFgets(buff[MAXIMUM_LINE_LENGTH - 1 := '\0'], chunk)[MAXIMUM_LINE_LENGTH - 1] != '\0'
  }

  /** The as-written check never fires. */
  lemma LengthErrorNeverRaised(buff: seq<char>, chunk: string)
    requires |buff| == MAXIMUM_LINE_LENGTH && |chunk| < MAXIMUM_LINE_LENGTH
    ensures !LengthErrorAsWritten(buff, chunk)
  {
    var b := AfterFgets(buff[MAXIMUM_LINE_LENGTH - 1 := '\0'], chunk);
    if |chunk| < MAXIMUM_LINE_LENGTH - 1 {
      assert b[MAXIMUM_LINE_LENGTH - 1] == buff[MAXIMUM_LINE_LENGTH - 1 := '\0'][MAXIMUM_LINE_LENGTH - 1];
    } else {
      assert b[MAXIMUM_LINE_LENGTH - 1] == '\0';
    }
  }

  /** The first scan as written: no chunk is refused, so the tail of a long
      line is scanned as a line of its own. */
  function ScanAsWritten(t: Tables, s: string): Tables
    decreases |s|
  {
    if s == [] then t
    else
      var c := FgetsChunk(s, MAXIMUM_LINE_LENGTH - 1);
      ScanAsWritten(Chunk(t, c), s[|c|..])
  }

  /** A data line of 1023 'x' characters that ends in "%?hi": the corrected
      scan refuses it, the as-written scan records the message "hi". */
  lemma LongLineAsWritten()
    ensures var s := seq(MAXIMUM_LINE_LENGTH - 1, i => 'x') + "%?hi\n";
      && Scan(EMPTY, s) == None
      && ScanAsWritten(EMPTY, s) == EMPTY.(messages := ["hi"])
  {
    var xs := seq(MAXIMUM_LINE_LENGTH - 1, i => 'x');
    var s := xs + "%?hi\n";
    LongLineChunk(xs, s);
    assert Scan(EMPTY, s) == None;
    assert ScanAsWritten(EMPTY, s) == ScanAsWritten(EMPTY, "%?hi\n");
    var l, text := HiLine();
    assert "%?hi\n" == l + "\n" + "";
    ScanAsWrittenLine(EMPTY, l, "");
    SpecialMessage(EMPTY, text);
  }

  /** The first chunk of the long line is its 1023 'x' characters. */
  lemma LongLineChunk(xs: string, s: string)
    requires xs == seq(MAXIMUM_LINE_LENGTH - 1, i => 'x') && s == xs + "%?hi\n"
    ensures FgetsChunk(s, MAXIMUM_LINE_LENGTH - 1) == xs && TooLong(xs, s[|xs|..])
    ensures Chunk(EMPTY, xs) == EMPTY && s[|xs|..] == "%?hi\n"
  {
    assert '\n' !in s[..|s| - 1] by {
      assert forall x :: x in s[..|s| - 1] ==> x in xs || x in "%?hi";
    }
    IndexOfFirst(s, '\n', |s| - 1);
    CStrWhole(xs);
  }

  /** The message line at the end of the long line. */
  lemma HiLine() returns (l: CString, text: CString)
    ensures l == "%?hi" && text == "hi" && '\n' !in l && |l| > 0 && l[0] == '%' && l[1..] == "?" + text
  {
    l, text := "%?hi", "hi";
    assert l[1..] == "?" + text;
  }

  lemma ScanAsWrittenLine(t: Tables, l: CString, rest: string)
    requires '\n' !in l && |l| + 1 < MAXIMUM_LINE_LENGTH
    ensures ScanAsWritten(t, l + "\n" + rest)
         == ScanAsWritten(if |l| > 0 && l[0] == '%' then Special(t, l[1..]) else t, rest)
  {
    var c := l + "\n";
    FgetsWholeLine(l, rest, MAXIMUM_LINE_LENGTH - 1);
    assert (l + "\n" + rest)[|c|..] == rest;
    CStrWhole(c);
    if |l| > 0 && l[0] == '%' {
      assert c[1..] == l[1..] + "\n";
      assert CutLf(c[1..]) == l[1..];
    }
  }

  class VectorLoader {
    var options: map<string, string>
    var hints: map<string, string>
    var messages: seq<string>

    function State(): Tables
      reads this
    {
      Tables(options, hints, messages)
    }

    /** The three tables start empty; opening the file is not modelled. */
    constructor ()
      ensures State() == EMPTY
    {
      options, hints, messages := map[], map[], [];
    }

    /** register_parameter into the hints or the options. */
    method RegisterParameter(intoHints: bool, line: CString)
      modifies this
      ensures var p := Parameter(line);
        if intoHints then State() == old(State()).(hints := Insert(old(hints), p.0, p.1))
        else State() == old(State()).(options := Insert(old(options), p.0, p.1))
    {
      var key, value := SplitParameter(line);
      if intoHints {
        if key !in hints {
          hints := hints[key := value];
        }
      } else {
        if key !in options {
          options := options[key := value];
        }
      }
    }

    method ProcessSpecialLine(line: CString)
      modifies this
      ensures State() == Special(old(State()), line)
    {
      if |line| == 0 {
        return;
      }
      if line[0] == '-' {
        RegisterParameter(false, line[1..]);
      } else if line[0] == '*' {
        RegisterParameter(true, line[1..]);
      } else if line[0] == '?' {
        messages := messages + [line[1..]];
      }
    }

    /** The first scan of the vector_loader constructor: fgets into the
        line buffer until the end of the input, each '%' line through
        cut_lf and process_special_line.  It stops with false where a line
        does not fit in the buffer. */
    method FirstScan(r: Reader) returns (ok: bool)
      requires r.Valid()
      modifies this, r
      ensures r.Valid()
      ensures Scan(old(State()), old(r.Rest())) == if ok then Some(State()) else None
    {
      while r.pos < |r.data|
        invariant r.Valid()
        invariant Scan(old(State()), old(r.Rest())) == Scan(State(), r.Rest())
        decreases |r.data| - r.pos
      {
        var tooLong := ScanChunk(r);
        if tooLong {
          return false;
        }
      }
      assert r.Rest() == [];
      return true;
    }

    /** One pass of the scanning loop: one fgets, and the chunk through
        cut_lf and process_special_line when it is a '%' line. */
    method ScanChunk(r: Reader) returns (tooLong: bool)
      requires r.Valid() && r.pos < |r.data|
      modifies this, r
      ensures r.Valid() && r.pos > old(r.pos)
      ensures Scan(old(State()), old(r.Rest())) == if tooLong then None else Scan(State(), r.Rest())
    {
      ghost var before := r.Rest();
      ghost var t := State();
      var chunk := Fgets(r, MAXIMUM_LINE_LENGTH);
      assert |r.Rest()| < |before|;
      tooLong := TooLong(chunk, r.Rest());
      if tooLong {
        return;
      }
      assert Scan(t, before) == Scan(Chunk(t, chunk), r.Rest());
      var line := CStr(chunk);
      if |line| > 0 && line[0] == '%' {
        ProcessSpecialLine(CutLf(line[1..]));
      }
      assert State() == Chunk(t, chunk);
    }
  }

  // ---------------------------------------------------------------- parse_multiple_parameters

  /** parse_multiple_parameters: the pieces of s between ':' separators,
      each through the converter, in order. */
  method ParseMultipleParameters<T>(s: CString, convert: string -> T) returns (values: seq<T>)
    ensures |values| == Count(s, ':') + 1
    ensures values == MapSeq(Split(s, ':'), convert)
  {
    var pieces := SplitPieces(s);
    values := ConvertAll(pieces, convert);
  }

  /** The first loop: each piece up to the next ':' or the terminating NUL
      is pushed, and the scan resumes after the separator. */
  method SplitPieces(s: CString) returns (pieces: seq<string>)
    ensures pieces == Split(s, ':')
  {
    pieces := [];
    var i := 0;
    ResumedStart(s);
    while i != |s| + 1
      invariant i <= |s| + 1 && Resumed(s, i, pieces)
      decreases |s| + 1 - i
    {
      var p := NextSeparator(s, i);
      SplitResume(s, i, p, pieces);
      pieces := pieces + [s[i..p]];
      i := p + 1;
    }
  }

  /** Before position i, the pieces pushed so far followed by the pieces of
      s[i..] are all the pieces of s; past the end, they are all of them. */
  ghost predicate Resumed(s: string, i: nat, pieces: seq<string>) {
    if i <= |s| then pieces + Split(s[i..], ':') == Split(s, ':') else pieces == Split(s, ':')
  }

  lemma ResumedStart(s: string)
    ensures Resumed(s, 0, [])
  {
    assert s[0..] == s;
    assert [] + Split(s, ':') == Split(s, ':');
  }

  /** Resuming after the piece s[i..p] keeps what was pushed, followed by
      the pieces still to come, equal to all the pieces of s. */
  lemma SplitResume(s: string, i: nat, p: nat, pieces: seq<string>)
    requires i <= p <= |s| && ':' !in s[i..p] && (p == |s| || s[p] == ':')
    requires Resumed(s, i, pieces)
    ensures Resumed(s, p + 1, pieces + [s[i..p]])
  {
    SplitAt(s, i, p);
    if p < |s| {
      PiecesAssoc(pieces, [s[i..p]], Split(s[p + 1..], ':'));
    }
  }

  lemma PiecesAssoc(a: seq<string>, b: seq<string>, c: seq<string>)
    ensures (a + b) + c == a + (b + c)
  {
  }

  /** The position of the first ':' at or after i, or |s|. */
  method NextSeparator(s: string, i: nat) returns (p: nat)
    requires i <= |s|
    ensures i <= p <= |s| && ':' !in s[i..p] && (p == |s| || s[p] == ':')
  {
    p := i;
    while p < |s| && s[p] != ':'
      invariant i <= p <= |s| && ':' !in s[i..p]
    {
      assert s[i..p + 1] == s[i..p] + [s[p]];
      p := p + 1;
    }
  }

  /** The second loop: every piece through the converter. */
  method ConvertAll<T>(pieces: seq<string>, convert: string -> T) returns (values: seq<T>)
    ensures values == MapSeq(pieces, convert)
  {
    values := [];
    for j := 0 to |pieces|
      invariant |values| == j
      invariant forall k :: 0 <= k < j ==> values[k] == convert(pieces[k])
    {
      values := values + [convert(pieces[j])];
    }
  }

  /** One piece of the split starting at i and ending at p. */
  lemma SplitAt(s: string, i: nat, p: nat)
    requires i <= p <= |s| && ':' !in s[i..p] && (p == |s| || s[p] == ':')
    ensures p == |s| ==> Split(s[i..], ':') == [s[i..p]]
    ensures p < |s| ==> Split(s[i..], ':') == [s[i..p]] + Split(s[p + 1..], ':')
  {
    var t := s[i..];
    assert t[..p - i] == s[i..p];
    if p == |s| {
      assert t == s[i..p];
      IndexOfAbsent(t, ':');
    } else {
      assert t[p - i] == ':';
      IndexOfFirst(t, ':', p - i);
      assert t[p - i + 1..] == s[p + 1..];
    }
  }
}
