// Event extraction from transaction logs: the indexer's stack parser with its delayed pop, the
// SDK's with an immediate pop, and the printing of call trees that both invert.

module LogParser {
  import opened Wrappers

  const PROGRAM := "Program "
  const INVOKE := " invoke"
  const SUCCESS := " success"
  const DATA := "Program data: "

  // ---- The indexer's parser ----

  function FindSpace(s: string, from: nat): (pos: Option<nat>)
    requires from <= |s|
    ensures pos.Some? ==> from <= pos.value < |s| && s[pos.value] == ' '
    decreases |s| - from
  {
    if from == |s| then None else if s[from] == ' ' then Some(from) else FindSpace(s, from + 1)
  }

  // The program a line starts, if it starts one.
  function Invoked(log: string): Option<string> {
    if !(PROGRAM <= log) then None
    else match FindSpace(log, |PROGRAM|)
      case None => None
      case Some(space) =>
        if INVOKE <= log[space..] && ':' !in log[|PROGRAM|..space] then Some(log[|PROGRAM|..space]) else None
  }

  function EndsWith(s: string, t: string): bool {
    |t| <= |s| && s[|s| - |t|..] == t
  }

  // Whether a line ends a program; None stands for the panic of an inverted slice.
  function IsProgramEnd(log: string): Option<bool> {
    if !(PROGRAM <= log && EndsWith(log, SUCCESS)) then Some(false)
    else if |log| < |PROGRAM| + |SUCCESS| then None
    else
      var name := log[|PROGRAM|..|log| - |SUCCESS|];
      Some(' ' !in name && ':' !in name)
  }

  datatype State<T> = State(stack: seq<string>, doPop: bool, events: seq<T>)
  datatype Outcome<T> = Going(state: State<T>) | ParseError | Panic

  type Decoder<T> = string -> Option<T>

  function HandleLine<T>(st: State<T>, log: string, target: string, decode: Decoder<T>): Outcome<T> {
    if st.doPop && st.stack == [] then ParseError
    else
      var popped := if st.doPop then st.stack[..|st.stack| - 1] else st.stack;
      var stack := if Invoked(log).Some? then popped + [Invoked(log).value] else popped;
      if stack == [] then ParseError
      else if stack[|stack| - 1] == target && DATA <= log then
        var e := decode(log[|DATA|..]);
        Going(State(stack, false, if e.Some? then st.events + [e.value] else st.events))
      else match IsProgramEnd(log)
        case None => Panic
        case Some(pop) => Going(State(stack, pop, st.events))
  }

  function HandleLines<T>(st: State<T>, logs: seq<string>, target: string, decode: Decoder<T>): Outcome<T>
    decreases |logs|
  {
    if logs == [] then Going(st)
    else match HandleLine(st, logs[0], target, decode)
      case Going(next) => HandleLines(next, logs[1..], target, decode)
      case ParseError => ParseError
      case Panic => Panic
  }

  // One line: the delayed pop, a push, and an event or a pop to come.
  method ParseLine<T>(state: State<T>, log: string, target: string, decode: Decoder<T>) returns (r: Outcome<T>)
    ensures r == HandleLine(state, log, target, decode)
  {
    hide Invoked, IsProgramEnd;
    var stack := state.stack;
    if state.doPop {
      if stack == [] {
        return ParseError;
      }
      stack := stack[..|stack| - 1];
    }
    var started := Invoked(log);
    if started.Some? {
      stack := stack + [started.value];
    }
    if stack == [] {
      return ParseError;
    }
    if stack[|stack| - 1] == target && DATA <= log {
      var e := decode(log[|DATA|..]);
      return Going(State(stack, false, if e.Some? then state.events + [e.value] else state.events));
    }
    var pop := IsProgramEnd(log);
    r := if pop.None? then Panic else Going(State(stack, pop.value, state.events));
  }

  method ParseLogs<T>(logs: seq<string>, target: string, decode: Decoder<T>) returns (r: Outcome<T>)
    ensures r == HandleLines(State([], false, []), logs, target, decode)
  {
    hide HandleLine;
    var state: State<T> := State([], false, []);
    HandleNone(state, target, decode);
    assert logs[0..] == logs;
    for i := 0 to |logs|
      invariant HandleLines(state, logs[i..], target, decode) == HandleLines(State([], false, []), logs, target, decode)
    {
      hide HandleLines;
      HandleNext(state, logs, i, target, decode);
      r := ParseLine(state, logs[i], target, decode);
      if !r.Going? {
        return;
      }
      state := r.state;
    }
    HandleNone(state, target, decode);
    assert logs[|logs|..] == [];
    r := Going(state);
  }

  lemma HandleNone<T>(st: State<T>, target: string, decode: Decoder<T>)
    ensures HandleLines(st, [], target, decode) == Going(st)
  {
  }

  lemma HandleNext<T>(st: State<T>, logs: seq<string>, i: nat, target: string, decode: Decoder<T>)
    requires i < |logs|
    ensures HandleLines(st, logs[i..], target, decode) ==
      match HandleLine(st, logs[i], target, decode)
      case Going(next) => HandleLines(next, logs[i + 1..], target, decode)
      case ParseError => ParseError
      case Panic => Panic
  {
    hide HandleLine;
    assert logs[i..][0] == logs[i] && logs[i..][1..] == logs[i + 1..];
  }

  // ---- The SDK's parser ----

  predicate Base58(c: char) {
    '1' <= c <= '9' || ('A' <= c <= 'Z' && c != 'I' && c != 'O') || ('a' <= c <= 'z' && c != 'l')
  }

  predicate Digit(c: char) {
    '0' <= c <= '9'
  }

  function Base58Run(s: string): (n: nat)
    ensures n <= |s|
    ensures forall i | 0 <= i < n :: Base58(s[i])
    ensures n < |s| ==> !Base58(s[n])
  {
    if s == [] || !Base58(s[0]) then 0 else 1 + Base58Run(s[1..])
  }

  // The program matched by the invoke pattern.
  function TsInvoked(log: string): Option<string> {
    if !(PROGRAM <= log) then None
    else
      var n := Base58Run(log[|PROGRAM|..]);
      var rest := log[|PROGRAM| + n..];
      var open := INVOKE + " [";
      if n > 0 && open <= rest && |rest| > |open| + 1 && rest[|rest| - 1] == ']'
         && forall i | |open| <= i < |rest| - 1 :: Digit(rest[i])
      then Some(log[|PROGRAM|..|PROGRAM| + n]) else None
  }

  predicate TsEnded(log: string) {
    PROGRAM <= log &&
    var n := Base58Run(log[|PROGRAM|..]);
    n > 0 && log[|PROGRAM| + n..] in {SUCCESS, " failed"}
  }

  // One line: the stack after it, and the payload it selects, if any.
  function TsNext(stack: seq<string>, log: string, target: string): (seq<string>, seq<string>) {
    if TsInvoked(log).Some? then (stack + [TsInvoked(log).value], [])
    else if TsEnded(log) then (if stack == [] then [] else stack[..|stack| - 1], [])
    else if DATA <= log && stack != [] && stack[|stack| - 1] == target then (stack, [log[|DATA|..]])
    else (stack, [])
  }

  // The payload lines the SDK selects.
  function TsSelect(stack: seq<string>, logs: seq<string>, target: string): seq<string>
    decreases |logs|
  {
    if logs == [] then []
    else TsNext(stack, logs[0], target).1 + TsSelect(TsNext(stack, logs[0], target).0, logs[1..], target)
  }

  function DecodeAll<T>(payloads: seq<string>, decode: Decoder<T>): seq<T> {
    if payloads == [] then []
    else (if decode(payloads[0]).Some? then [decode(payloads[0]).value] else []) + DecodeAll(payloads[1..], decode)
  }

  method GetEvents<T>(logs: seq<string>, target: string, decode: Decoder<T>) returns (results: seq<T>)
    ensures results == DecodeAll(TsSelect([], logs, target), decode)
  {
    results := [];
    var stack: seq<string> := [];
    for i := 0 to |logs|
      invariant results + DecodeAll(TsSelect(stack, logs[i..], target), decode) == DecodeAll(TsSelect([], logs, target), decode)
    {
      hide TsInvoked, TsEnded, TsSelect, DecodeAll;
      var log := logs[i];
      ghost var before, rest := stack, logs[i + 1..];
      ghost var payloads: seq<string> := [];
      assert logs[i..] == [log] + rest;
      TsLine(stack, log, rest, target);
      var found: seq<T> := [];
      DecodeNone(decode);
      var started := TsInvoked(log);
      if started.Some? {
        stack := stack + [started.value];
      } else if TsEnded(log) {
        stack := if stack == [] then [] else stack[..|stack| - 1];
      } else if DATA <= log && stack != [] && stack[|stack| - 1] == target {
        payloads := [log[|DATA|..]];
        DecodeOne(log[|DATA|..], decode);
        var e := decode(log[|DATA|..]);
        if e.Some? {
          found := [e.value];
        }
      }
      assert TsNext(before, log, target) == (stack, payloads) && found == DecodeAll(payloads, decode);
      DecodeSplit(payloads, TsSelect(stack, rest, target), decode);
      Regroup(results, found, DecodeAll(TsSelect(stack, rest, target), decode));
      results := results + found;
    }
    assert logs[|logs|..] == [];
  }

  lemma Regroup<T>(a: seq<T>, b: seq<T>, c: seq<T>)
    ensures a + (b + c) == (a + b) + c
  {
  }

  lemma DecodeNone<T>(decode: Decoder<T>)
    ensures DecodeAll([], decode) == []
  {
  }

  lemma DecodeOne<T>(payload: string, decode: Decoder<T>)
    ensures DecodeAll([payload], decode) == if decode(payload).Some? then [decode(payload).value] else []
  {
    assert [payload][1..] == [];
  }

  lemma {:induction false} DecodeSplit<T>(a: seq<string>, b: seq<string>, decode: Decoder<T>)
    ensures DecodeAll(a + b, decode) == DecodeAll(a, decode) + DecodeAll(b, decode)
  {
    if a == [] {
      assert a + b == b;
    } else {
      assert (a + b)[1..] == a[1..] + b && (a + b)[0] == a[0];
      DecodeSplit(a[1..], b, decode);
      var x := if decode(a[0]).Some? then [decode(a[0]).value] else [];
      Regroup(x, DecodeAll(a[1..], decode), DecodeAll(b, decode));
    }
  }

  lemma TsLine(stack: seq<string>, log: string, rest: seq<string>, target: string)
    ensures TsSelect(stack, [log] + rest, target) == TsNext(stack, log, target).1 + TsSelect(TsNext(stack, log, target).0, rest, target)
  {
    hide TsNext;
    assert ([log] + rest)[0] == log && ([log] + rest)[1..] == rest;
  }

  // ---- Printing call trees ----

  // What runs inside a program: text, return values and consumption reports of any content, data payloads, lines of
  // the runtime that do not begin with "Program ", and nested calls. The runtime reports the units a
  // program consumed, but not for its native programs.
  datatype Item =
    | Text(text: string)
    | Return(text: string)
    | Consumption(text: string)
    | Payload(data: string)
    | Note(line: string)
    | Call(program: string, items: seq<Item>, units: Option<string>)

  function Digits(n: nat): (s: string)
    ensures s != [] && forall c | c in s :: Digit(c)
  {
    if n < 10 then ['0' + n as char] else Digits(n / 10) + ['0' + (n % 10) as char]
  }

  function InvokeLine(program: string, depth: nat): string {
    PROGRAM + program + INVOKE + " [" + Digits(depth) + "]"
  }

  function UnitsLine(program: string, units: string): string {
    PROGRAM + program + " consumed " + units + " compute units"
  }

  function SuccessLine(program: string): string {
    PROGRAM + program + SUCCESS
  }

  // "Program <word>: <text>"
  function TaggedLine(word: string, text: string): string {
    PROGRAM + (word + ":") + " " + text
  }

  function EndLines(program: string, units: Option<string>): seq<string> {
    (if units.Some? then [UnitsLine(program, units.value)] else []) + [SuccessLine(program)]
  }

  function Print(item: Item, depth: nat): seq<string>
    decreases item, 0
  {
    match item
    case Text(t) => [TaggedLine("log", t)]
    case Return(t) => [TaggedLine("return", t)]
    case Consumption(t) => [TaggedLine("consumption", t)]
    case Payload(d) => [DATA + d]
    case Note(line) => [line]
    case Call(p, items, units) =>
      [InvokeLine(p, depth)] + PrintAll(items, depth + 1) + EndLines(p, units)
  }

  function PrintAll(items: seq<Item>, depth: nat): seq<string>
    decreases items, 1
  {
    if items == [] then [] else Print(items[0], depth) + PrintAll(items[1..], depth)
  }

  predicate ValidId(program: string) {
    program != [] && forall c | c in program :: Base58(c)
  }

  predicate ValidItem(item: Item)
    decreases item, 0
  {
    match item
    case Note(line) => !(PROGRAM <= line)
    case Call(p, items, _) => ValidId(p) && ValidItems(items)
    case _ => true
  }

  predicate ValidItems(items: seq<Item>)
    decreases items, 1
  {
    items == [] || (ValidItem(items[0]) && ValidItems(items[1..]))
  }

  // The payloads the target itself emits, in order, given the program now running.
  function Payloads(item: Item, running: string, target: string): seq<string>
    decreases item, 0
  {
    match item
    case Payload(d) => if running == target then [d] else []
    case Call(p, items, _) => PayloadsAll(items, p, target)
    case _ => []
  }

  function PayloadsAll(items: seq<Item>, running: string, target: string): seq<string>
    decreases items, 1
  {
    if items == [] then [] else Payloads(items[0], running, target) + PayloadsAll(items[1..], running, target)
  }

  // ---- How single lines read ----

  lemma {:induction false} FindSpaceAt(s: string, from: nat, k: nat)
    requires from <= k < |s| && s[k] == ' ' && forall i | from <= i < k :: s[i] != ' '
    ensures FindSpace(s, from) == Some(k)
    decreases k - from
  {
    if from < k {
      FindSpaceAt(s, from + 1, k);
    }
  }

  // A "Program <word> ..." line: the word runs to the first space.
  lemma WordLine(word: string, rest: string)
    requires ' ' !in word
    ensures var log := PROGRAM + word + " " + rest;
      && PROGRAM <= log && FindSpace(log, |PROGRAM|) == Some(|PROGRAM| + |word|)
      && log[|PROGRAM|..|PROGRAM| + |word|] == word && log[|PROGRAM| + |word|..] == " " + rest
  {
    var log := PROGRAM + word + " " + rest;
    assert log == PROGRAM + (word + " " + rest);
    forall i | |PROGRAM| <= i < |PROGRAM| + |word| ensures log[i] != ' ' {
      assert log[i] == word[i - |PROGRAM|];
    }
    FindSpaceAt(log, |PROGRAM|, |PROGRAM| + |word|);
  }

  lemma {:induction false} RunAt(word: string, rest: string)
    requires (forall c | c in word :: Base58(c)) && (rest == [] || !Base58(rest[0]))
    ensures Base58Run(word + rest) == |word|
  {
    if word == [] {
      assert word + rest == rest;
    } else {
      assert (word + rest)[1..] == word[1..] + rest;
      RunAt(word[1..], rest);
    }
  }

  // The printed lines, letter by letter.
  lemma LinesAre(program: string, units: string, text: string, depth: nat)
    ensures InvokeLine(program, depth) == "Program " + program + " invoke [" + Digits(depth) + "]"
    ensures UnitsLine(program, units) == "Program " + program + " consumed " + units + " compute units"
    ensures SuccessLine(program) == "Program " + program + " success"
    ensures Print(Text(text), depth) == ["Program log: " + text] && Print(Return(text), depth) == ["Program return: " + text]
    ensures Print(Consumption(text), depth) == ["Program consumption: " + text] && Print(Payload(text), depth) == ["Program data: " + text]
  {
    assert "Program log: " == PROGRAM + ("log" + ":") + " ";
    assert "Program return: " == PROGRAM + ("return" + ":") + " ";
    assert "Program consumption: " == PROGRAM + ("consumption" + ":") + " ";
  }

  function Number(digits: string): int {
    if digits == [] then 0 else 10 * Number(digits[..|digits| - 1]) + (digits[|digits| - 1] as int - '0' as int)
  }

  // Depths are printed in decimal.
  lemma {:induction false} DigitsRead(n: nat)
    ensures Number(Digits(n)) == n
  {
    if n >= 10 {
      DigitsRead(n / 10);
      assert Digits(n)[..|Digits(n)| - 1] == Digits(n / 10);
    } else {
      assert Digits(n)[..0] == [];
    }
  }

  lemma Alphabet(c: char)
    ensures Digit(c) <==> c in {'0', '1', '2', '3', '4', '5', '6', '7', '8', '9'}
    ensures Base58(c) <==> c in {'1', '2', '3', '4', '5', '6', '7', '8', '9', 'A', 'B', 'C', 'D', 'E', 'F', 'G', 'H', 'J', 'K', 'L',
      'M', 'N', 'P', 'Q', 'R', 'S', 'T', 'U', 'V', 'W', 'X', 'Y', 'Z', 'a', 'b', 'c', 'd', 'e', 'f', 'g',
      'h', 'i', 'j', 'k', 'm', 'n', 'o', 'p', 'q', 'r', 's', 't', 'u', 'v', 'w', 'x', 'y', 'z'}
  {
  }

  // Which lines the indexer takes for an end, and the one line it panics on.
  lemma EndExact(log: string)
    ensures IsProgramEnd(log) == Some(true) <==> exists name :: log == "Program " + name + " success" && ' ' !in name && ':' !in name
    ensures IsProgramEnd(log).None? <==> log == "Program success"
  {
    if PROGRAM <= log && EndsWith(log, SUCCESS) && |log| >= |PROGRAM| + |SUCCESS| {
      var name := log[|PROGRAM|..|log| - |SUCCESS|];
      assert log == "Program " + name + " success";
    }
    forall name | log == "Program " + name + " success"
      ensures PROGRAM <= log && EndsWith(log, SUCCESS) && |log| >= |PROGRAM| + |SUCCESS| && log[|PROGRAM|..|log| - |SUCCESS|] == name
    {
    }
    if PROGRAM <= log && EndsWith(log, SUCCESS) && |log| < |PROGRAM| + |SUCCESS| {
      Overlap(log);
    }
  }

  // The two words can share only their one space.
  lemma Overlap(log: string)
    requires PROGRAM <= log && EndsWith(log, SUCCESS) && |log| < |PROGRAM| + |SUCCESS|
    ensures log == "Program success"
  {
    var k := |log| - |SUCCESS|;
    assert log[..8] == PROGRAM && log[k..] == SUCCESS;
    assert log[k] == SUCCESS[0] == ' ' && PROGRAM[k] == log[k];
  }

  // Which lines the SDK takes for an end.
  lemma TsEndExact(log: string)
    ensures TsEnded(log) <==>
      exists id :: ValidId(id) && (log == "Program " + id + " success" || log == "Program " + id + " failed")
  {
    hide TsEnded, ValidId;
    if TsEnded(log) {
      var id := TsEndParts(log);
    }
    if id :| ValidId(id) && (log == "Program " + id + " success" || log == "Program " + id + " failed") {
      TsEndsAs(id, if log == "Program " + id + " success" then SUCCESS else " failed");
    }
  }

  lemma TsEndParts(log: string) returns (id: string)
    requires TsEnded(log)
    ensures ValidId(id) && (log == "Program " + id + " success" || log == "Program " + id + " failed")
  {
    hide Base58, Base58Run;
    var n := Base58Run(log[|PROGRAM|..]);
    id := log[|PROGRAM|..|PROGRAM| + n];
    assert log == PROGRAM + id + log[|PROGRAM| + n..];
    forall c | c in id ensures Base58(c) {
      var i :| 0 <= i < n && id[i] == c;
      assert log[|PROGRAM|..][i] == c;
    }
  }

  lemma TsEndsAs(id: string, end: string)
    requires ValidId(id) && end in {" success", " failed"}
    ensures TsEnded(PROGRAM + id + end)
  {
    NotEmpty(id);
    IdRun(id, end);
    hide Base58, Base58Run, ValidId;
    var log := PROGRAM + id + end;
    assert log[|PROGRAM|..] == id + end && log[|PROGRAM| + |id|..] == end;
  }

  // Which lines start which program, for the indexer: everything up to the first space after the tag.
  lemma InvokedExact(log: string, program: string)
    ensures Invoked(log) == Some(program) <==>
      ' ' !in program && ':' !in program && exists rest :: log == "Program " + program + " invoke" + rest
  {
    if Invoked(log) == Some(program) {
      var space := FindSpace(log, |PROGRAM|).value;
      FirstSpace(log, |PROGRAM|);
      var rest := log[space + |INVOKE|..];
      assert log == PROGRAM + program + log[space..] && log[space..] == INVOKE + rest;
      assert log == "Program " + program + " invoke" + rest;
    }
    if rest :| ' ' !in program && ':' !in program && log == "Program " + program + " invoke" + rest {
      var tail := "invoke" + rest;
      assert INVOKE == " " + "invoke" && INVOKE + rest == " " + tail;
      assert log == PROGRAM + program + (INVOKE + rest) == PROGRAM + program + " " + tail;
      WordLine(program, tail);
      assert log[|PROGRAM| + |program|..] == INVOKE + rest;
    }
  }

  lemma {:induction false} FirstSpace(s: string, from: nat)
    requires from <= |s| && FindSpace(s, from).Some?
    ensures ' ' !in s[from..FindSpace(s, from).value]
    decreases |s| - from
  {
    if s[from] != ' ' {
      FirstSpace(s, from + 1);
      var k := FindSpace(s, from).value;
      assert s[from..k] == [s[from]] + s[from + 1..k];
    }
  }

  // And for the SDK.
  lemma TsInvokedExact(log: string, program: string)
    ensures TsInvoked(log) == Some(program) <==>
      ValidId(program) && exists digits :: Digital(digits) && log == "Program " + program + " invoke [" + digits + "]"
  {
    hide TsInvoked, ValidId;
    if TsInvoked(log) == Some(program) {
      var digits := TsInvokedParts(log);
    }
    if digits :| ValidId(program) && Digital(digits) && log == "Program " + program + " invoke [" + digits + "]" {
      TsInvokedAs(log, program, digits);
    }
  }

  predicate Digital(digits: string) {
    digits != [] && forall c | c in digits :: c in {'0', '1', '2', '3', '4', '5', '6', '7', '8', '9'}
  }

  lemma TsInvokedParts(log: string) returns (digits: string)
    requires TsInvoked(log).Some?
    ensures var program := TsInvoked(log).value;
      ValidId(program) && Digital(digits) && log == "Program " + program + " invoke [" + digits + "]"
  {
    hide Base58, Base58Run;
    var program, open := TsInvoked(log).value, INVOKE + " [";
    var rest := log[|PROGRAM| + |program|..];
    digits := rest[|open|..|rest| - 1];
    assert rest == open + digits + "]";
    assert log == PROGRAM + program + rest;
    forall c | c in program ensures Base58(c) {
      var i :| 0 <= i < |program| && program[i] == c;
      assert log[|PROGRAM|..][i] == c;
    }
    forall c | c in digits ensures Digit(c) {
      var i :| 0 <= i < |digits| && digits[i] == c;
      assert rest[|open| + i] == c;
    }
  }

  lemma TsInvokedAs(log: string, program: string, digits: string)
    requires ValidId(program) && Digital(digits) && log == "Program " + program + " invoke [" + digits + "]"
    ensures TsInvoked(log) == Some(program)
  {
    var tail := INVOKE + " [" + digits + "]";
    assert log == PROGRAM + program + tail && tail[0] == ' ';
    NotEmpty(program);
    IdRun(program, tail);
    hide Base58Run, ValidId, Base58;
    assert log[|PROGRAM|..] == program + tail && log[|PROGRAM| + |program|..] == tail;
    TailReads(log, program, digits);
  }

  // A line before any program is started makes the indexer give up the whole log.
  lemma OrphanFails<T>(log: string, rest: seq<string>, target: string, decode: Decoder<T>)
    requires Invoked(log).None?
    ensures HandleLines(State([], false, []), [log] + rest, target, decode) == ParseError
  {
    assert ([log] + rest)[0] == log;
  }

  // A line is quiet when neither parser takes it for a start or an end.
  predicate Quiet(log: string) {
    Invoked(log).None? && IsProgramEnd(log) == Some(false) && TsInvoked(log).None? && !TsEnded(log)
  }

  lemma ColonNotInEnd(log: string, c: nat)
    requires |SUCCESS| <= |log| && |log| - |SUCCESS| <= c < |log| && log[c] == ':'
    ensures !EndsWith(log, SUCCESS)
  {
    var end, i := log[|log| - |SUCCESS|..], c - (|log| - |SUCCESS|);
    assert end[i] == ':' && SUCCESS[i] != ':';
  }

  lemma TaggedNoEnd(log: string, c: nat)
    requires |PROGRAM| <= c < |log| && log[c] == ':'
    ensures IsProgramEnd(log) == Some(false)
  {
    if c < |log| - |SUCCESS| {
      assert log[|PROGRAM|..|log| - |SUCCESS|][c - |PROGRAM|] == ':';
    } else if |SUCCESS| <= |log| {
      ColonNotInEnd(log, c);
    }
  }

  lemma TaggedNoMatch(log: string, tail: string, c: nat)
    requires log == PROGRAM + tail && c < |tail| && tail[c] == ':' && forall i | 0 <= i <= c :: tail[i] != ' '
    ensures TsInvoked(log).None? && !TsEnded(log)
  {
    assert log[|PROGRAM|..] == tail;
    var n := Base58Run(tail);
    assert !Base58(':');
    assert n <= c;
    assert log[|PROGRAM| + n..][0] == tail[n] != ' ';
  }

  // Lines whose word ends in a colon are quiet, whatever follows.
  lemma TaggedQuiet(word: string, rest: string)
    requires ' ' !in word
    ensures Quiet(TaggedLine(word, rest))
  {
    hide IsProgramEnd, TsInvoked, TsEnded;
    var tag := word + ":";
    var log, tail := PROGRAM + tag + " " + rest, tag + " " + rest;
    WordLine(tag, rest);
    assert log == PROGRAM + tail;
    assert tag[|word|] == ':' && tail[|word|] == ':' && log[|PROGRAM| + |word|] == ':';
    TaggedNoEnd(log, |PROGRAM| + |word|);
    forall i | 0 <= i <= |word| ensures tail[i] != ' ' {
      assert tail[i] == tag[i];
    }
    TaggedNoMatch(log, tail, |word|);
  }

  lemma NoteQuiet(line: string)
    requires !(PROGRAM <= line)
    ensures Quiet(line)
  {
  }

  lemma IdWord(program: string)
    requires ValidId(program)
    ensures ' ' !in program && ':' !in program
  {
  }

  // A "Program <id> ..." line, as both parsers cut it.
  lemma IdLine(program: string, rest: string)
    requires ValidId(program)
    ensures var log := PROGRAM + program + " " + rest;
      && PROGRAM <= log && Base58Run(log[|PROGRAM|..]) == |program|
      && log[|PROGRAM|..|PROGRAM| + |program|] == program && log[|PROGRAM| + |program|..] == " " + rest
      && Invoked(log) == (if INVOKE <= " " + rest then Some(program) else None)
      && !(DATA <= log)
  {
    IdWord(program);
    WordLine(program, rest);
    NotData(program, rest);
    hide Base58, ValidId;
    var log := PROGRAM + program + " " + rest;
    assert log == PROGRAM + (program + (" " + rest));
    assert log[|PROGRAM|..] == program + (" " + rest);
    assert Base58Run(program + (" " + rest)) == |program| by {
      IdRun(program, " " + rest);
    }
  }

  lemma IdRun(program: string, rest: string)
    requires ValidId(program) && rest != [] && rest[0] == ' '
    ensures Base58Run(program + rest) == |program|
  {
    assert !Base58(' ');
    RunAt(program, rest);
  }

  // The invoke line starts exactly its program, for both parsers.
  lemma InvokeReads(program: string, depth: nat)
    requires ValidId(program)
    ensures var log := InvokeLine(program, depth);
      Invoked(log) == Some(program) && TsInvoked(log) == Some(program)
      && IsProgramEnd(log) == Some(false) && !(DATA <= log)
  {
    var log, tail := InvokeLine(program, depth), INVOKE + " [" + Digits(depth) + "]";
    assert tail[0] == ' ' && tail == " " + tail[1..] && INVOKE <= tail;
    assert log == PROGRAM + program + " " + tail[1..];
    IdLine(program, tail[1..]);
    hide Base58Run, ValidId, Base58, Invoked, Digits;
    TailReads(log, program, Digits(depth));
    assert log[|log| - 1] == ']';
    LastChar(log, SUCCESS);
  }

  lemma TailReads(log: string, program: string, digits: string)
    requires program != [] && digits != [] && forall c | c in digits :: Digit(c)
    requires PROGRAM <= log && |program| <= |log| - |PROGRAM| && Base58Run(log[|PROGRAM|..]) == |program|
    requires log[|PROGRAM|..|PROGRAM| + |program|] == program
    requires log[|PROGRAM| + |program|..] == INVOKE + " [" + digits + "]"
    ensures TsInvoked(log) == Some(program)
  {
    hide Base58Run, Digit;
    var open, rest := INVOKE + " [", log[|PROGRAM| + |program|..];
    assert rest == open + digits + "]";
    forall i | |open| <= i < |rest| - 1 ensures Digit(rest[i]) {
      assert rest[i] == digits[i - |open|];
    }
  }

  lemma LastChar(s: string, t: string)
    requires s != [] && t != [] && s[|s| - 1] != t[|t| - 1]
    ensures !EndsWith(s, t)
  {
    if |t| <= |s| {
      assert s[|s| - |t|..][|t| - 1] == s[|s| - 1];
    }
  }

  lemma NotData(program: string, rest: string)
    requires ':' !in program && ' ' !in program
    ensures !(DATA <= PROGRAM + program + " " + rest)
  {
    var log := PROGRAM + program + " " + rest;
    assert log == PROGRAM + (program + " " + rest);
    var i := if |program| >= 5 then 4 else |program|;
    assert log[|PROGRAM| + i] == (program + " " + rest)[i];
    assert i < |log| - |PROGRAM| && log[|PROGRAM| + i] != DATA[|PROGRAM| + i];
  }

  // The success line ends its program, for both parsers.
  lemma SuccessReads(program: string)
    requires ValidId(program)
    ensures var log := SuccessLine(program);
      Invoked(log).None? && TsInvoked(log).None? && TsEnded(log)
      && IsProgramEnd(log) == Some(true) && !(DATA <= log)
  {
    var log := SuccessLine(program);
    assert log == PROGRAM + program + " " + "success" && SUCCESS == " " + "success";
    IdLine(program, "success");
    IdWord(program);
    EndReads(program);
    hide Base58Run, Base58, IsProgramEnd, Invoked, ValidId;
    assert program != [] by {
      NotEmpty(program);
    }
    assert SUCCESS[1] != INVOKE[1];
  }

  lemma NotEmpty(program: string)
    requires ValidId(program)
    ensures program != []
  {
  }

  lemma EndReads(program: string)
    requires ' ' !in program && ':' !in program
    ensures IsProgramEnd(SuccessLine(program)) == Some(true)
  {
    var log := SuccessLine(program);
    assert log[|PROGRAM|..|log| - |SUCCESS|] == program;
    assert log[|log| - |SUCCESS|..] == SUCCESS;
  }

  lemma OtherWord(program: string, rest: string)
    requires ValidId(program) && rest != [] && rest[0] == 'c'
    ensures var log := PROGRAM + program + " " + rest;
      Invoked(log).None? && TsInvoked(log).None? && !TsEnded(log) && !(DATA <= log)
  {
    IdLine(program, rest);
    hide Base58Run, Base58, ValidId;
    var tail := " " + rest;
    assert tail[1] == 'c' && INVOKE[1] == 'i' && (INVOKE + " [")[1] == 'i' && SUCCESS[1] == 's' && " failed"[1] == 'f';
  }

  // The compute-unit line is quiet.
  lemma UnitsQuiet(program: string, units: string)
    requires ValidId(program)
    ensures Quiet(UnitsLine(program, units)) && !(DATA <= UnitsLine(program, units))
  {
    hide Invoked, TsInvoked, TsEnded, ValidId;
    var log, rest := UnitsLine(program, units), "consumed " + units + " compute units";
    assert log == PROGRAM + program + " " + rest;
    OtherWord(program, rest);
    LineEnd(log, "ts");
  }

  lemma LineEnd(log: string, end: string)
    requires EndsWith(log, end) && |end| == 2 && end[0] == 't'
    ensures IsProgramEnd(log) == Some(false)
  {
    assert log[|log| - 2..][0] == 't' && SUCCESS[|SUCCESS| - 2] == 's';
    if |SUCCESS| <= |log| {
      assert log[|log| - |SUCCESS|..][|SUCCESS| - 2] == log[|log| - 2];
    }
  }

  // ---- Parsing what was printed ----

  predicate Good<T>(st: State<T>) {
    st.doPop ==> st.stack != []
  }

  // The programs really running: a pending pop already taken.
  function Running<T>(st: State<T>): seq<string>
    requires Good(st)
  {
    if st.doPop then st.stack[..|st.stack| - 1] else st.stack
  }

  predicate Runs<T>(st: State<T>, running: string, calls: bool)
    requires Good(st)
  {
    if Running(st) == [] then calls else Running(st)[|Running(st)| - 1] == running
  }

  lemma {:induction false} HandleSplit<T>(st: State<T>, a: seq<string>, b: seq<string>, target: string, decode: Decoder<T>)
    requires HandleLines(st, a, target, decode).Going?
    ensures HandleLines(st, a + b, target, decode) == HandleLines(HandleLines(st, a, target, decode).state, b, target, decode)
    decreases |a|
  {
    if a == [] {
      assert a + b == b;
    } else {
      hide HandleLine;
      assert (a + b)[1..] == a[1..] + b;
      HandleSplit(HandleLine(st, a[0], target, decode).state, a[1..], b, target, decode);
    }
  }

  lemma HandleOne<T>(st: State<T>, log: string, target: string, decode: Decoder<T>)
    ensures HandleLines(st, [log], target, decode) == HandleLine(st, log, target, decode)
  {
    hide HandleLine;
    assert [log][1..] == [];
    match HandleLine(st, log, target, decode) {
      case Going(next) => assert HandleLines(next, [], target, decode) == Going(next);
      case _ =>
    }
  }

  // The outcome of parsing lines that leave the running programs as they were.
  ghost predicate Emits<T>(st: State<T>, lines: seq<string>, payloads: seq<string>, target: string, decode: Decoder<T>)
    requires Good(st)
  {
    var r := HandleLines(st, lines, target, decode);
    r.Going? && Good(r.state) && Running(r.state) == Running(st)
    && r.state.events == st.events + DecodeAll(payloads, decode)
  }

  lemma EmitsThen<T>(st: State<T>, a: seq<string>, pa: seq<string>, b: seq<string>, pb: seq<string>, target: string, decode: Decoder<T>)
    requires Good(st) && Emits(st, a, pa, target, decode)
    requires Emits(HandleLines(st, a, target, decode).state, b, pb, target, decode)
    ensures Emits(st, a + b, pa + pb, target, decode)
  {
    hide HandleLines, DecodeAll;
    HandleSplit(st, a, b, target, decode);
    DecodeSplit(pa, pb, decode);
    Regroup(st.events, DecodeAll(pa, decode), DecodeAll(pb, decode));
  }

  lemma EmitsQuiet<T>(st: State<T>, log: string, target: string, decode: Decoder<T>)
    requires Good(st) && Running(st) != [] && Quiet(log)
    requires Running(st)[|Running(st)| - 1] == target ==> !(DATA <= log)
    ensures Emits(st, [log], [], target, decode)
  {
    hide IsProgramEnd, Invoked, TsInvoked, TsEnded;
    HandleOne(st, log, target, decode);
  }

  lemma DataTagged(d: string)
    ensures DATA + d == TaggedLine("data", d) && (DATA + d)[|DATA|..] == d
  {
  }

  lemma TaggedNotData(word: string, rest: string)
    requires word != [] && word[0] != 'd'
    ensures !(DATA <= TaggedLine(word, rest))
  {
    assert TaggedLine(word, rest)[|PROGRAM|] == word[0];
    assert DATA[|PROGRAM|] == 'd';
  }

  // A tagged line other than a data line selects nothing and changes nothing, in either parser.
  lemma EmitsTagged<T>(st: State<T>, word: string, rest: string, target: string, decode: Decoder<T>)
    requires Good(st) && Running(st) != [] && word != [] && word[0] != 'd' && ' ' !in word
    ensures Emits(st, [TaggedLine(word, rest)], [], target, decode)
  {
    hide Quiet, Emits, TaggedLine;
    TaggedQuiet(word, rest);
    TaggedNotData(word, rest);
    EmitsQuiet(st, TaggedLine(word, rest), target, decode);
  }

  lemma TsTagged(stack: seq<string>, word: string, rest: string, later: seq<string>, target: string)
    requires word != [] && word[0] != 'd' && ' ' !in word
    ensures TsSelect(stack, [TaggedLine(word, rest)] + later, target) == TsSelect(stack, later, target)
  {
    TaggedQuiet(word, rest);
    TaggedNotData(word, rest);
    hide TsInvoked, TsEnded, Invoked, IsProgramEnd, TsSelect, TaggedLine;
    TsLine(stack, TaggedLine(word, rest), later, target);
  }

  lemma {:induction false} RunItem<T>(item: Item, depth: nat, st: State<T>, running: string, target: string, decode: Decoder<T>)
    requires ValidItem(item) && Good(st) && Runs(st, running, item.Call?)
    ensures Emits(st, Print(item, depth), Payloads(item, running, target), target, decode)
    decreases item, 0
  {
    hide IsProgramEnd, Invoked, TsInvoked, TsEnded, Quiet, HandleLine, HandleLines, InvokeLine, EndLines, TaggedLine;
    match item {
      case Text(t) =>
        EmitsTagged(st, "log", t, target, decode);
      case Return(t) =>
        EmitsTagged(st, "return", t, target, decode);
      case Consumption(t) =>
        EmitsTagged(st, "consumption", t, target, decode);
      case Payload(d) =>
        TaggedQuiet("data", d);
        DataTagged(d);
        if running == target {
          EmitsPayload(st, d, target, decode);
        } else {
          EmitsQuiet(st, DATA + d, target, decode);
        }
      case Note(line) =>
        NoteQuiet(line);
        assert PROGRAM <= DATA;
        EmitsQuiet(st, line, target, decode);
      case Call(p, items, units) =>
        RunCall(p, items, units, depth, st, target, decode);
    }
  }

  lemma EmitsPayload<T>(st: State<T>, d: string, target: string, decode: Decoder<T>)
    requires Good(st) && Running(st) != [] && Running(st)[|Running(st)| - 1] == target && Quiet(DATA + d)
    ensures Emits(st, [DATA + d], [d], target, decode)
  {
    hide IsProgramEnd, Invoked, TsInvoked, TsEnded;
    HandleOne(st, DATA + d, target, decode);
    assert (DATA + d)[|DATA|..] == d;
    assert [d][1..] == [];
    assert DecodeAll([d], decode) == if decode(d).Some? then [decode(d).value] else [];
  }

  // A call: pushed by its first line, popped by the line after its last.
  lemma {:induction false} RunCall<T>(p: string, items: seq<Item>, units: Option<string>, depth: nat, st: State<T>, target: string, decode: Decoder<T>)
    requires ValidId(p) && ValidItems(items) && Good(st)
    ensures Emits(st, [InvokeLine(p, depth)] + PrintAll(items, depth + 1) + EndLines(p, units),
                  PayloadsAll(items, p, target), target, decode)
    decreases items, 2
  {
    hide HandleLine, HandleLines, InvokeLine, EndLines, DecodeAll, ValidId, Payloads, PayloadsAll;
    var first, body, end := InvokeLine(p, depth), PrintAll(items, depth + 1), EndLines(p, units);
    var inside := State(Running(st) + [p], false, st.events);
    StartsCall(st, p, depth, target, decode);
    RunItems(items, depth + 1, inside, p, target, decode);
    var after := HandleLines(inside, body, target, decode).state;
    EndsCall(after, p, units, target, decode);
    HandleSplit(inside, body, end, target, decode);
    HandleSplit(st, [first], body + end, target, decode);
    assert [first] + body + end == [first] + (body + end);
    assert Running(State(Running(after), true, after.events)) == Running(st);
  }

  lemma StartsCall<T>(st: State<T>, p: string, depth: nat, target: string, decode: Decoder<T>)
    requires ValidId(p) && Good(st)
    ensures HandleLines(st, [InvokeLine(p, depth)], target, decode) == Going(State(Running(st) + [p], false, st.events))
  {
    InvokeReads(p, depth);
    hide IsProgramEnd, Invoked, TsInvoked, TsEnded, InvokeLine;
    HandleOne(st, InvokeLine(p, depth), target, decode);
  }

  // The units line, if there is one, changes nothing; the success line leaves the pop pending.
  lemma EndsCall<T>(st: State<T>, p: string, units: Option<string>, target: string, decode: Decoder<T>)
    requires ValidId(p) && Good(st) && Running(st) != []
    ensures HandleLines(st, EndLines(p, units), target, decode) == Going(State(Running(st), true, st.events))
  {
    hide IsProgramEnd, Invoked, TsInvoked, TsEnded, SuccessLine, UnitsLine, HandleLine, HandleLines, DecodeAll;
    if units.Some? {
      var line := UnitsLine(p, units.value);
      UnitsQuiet(p, units.value);
      EmitsQuiet(st, line, target, decode);
      DecodeNone(decode);
      var after := HandleLines(st, [line], target, decode).state;
      EndsWithSuccess(after, p, target, decode);
      HandleSplit(st, [line], [SuccessLine(p)], target, decode);
    } else {
      assert EndLines(p, units) == [SuccessLine(p)];
      EndsWithSuccess(st, p, target, decode);
    }
  }

  lemma EndsWithSuccess<T>(st: State<T>, p: string, target: string, decode: Decoder<T>)
    requires ValidId(p) && Good(st) && Running(st) != []
    ensures HandleLines(st, [SuccessLine(p)], target, decode) == Going(State(Running(st), true, st.events))
  {
    SuccessReads(p);
    hide IsProgramEnd, Invoked, TsInvoked, TsEnded, SuccessLine;
    HandleOne(st, SuccessLine(p), target, decode);
  }

  lemma {:induction false} RunItems<T>(items: seq<Item>, depth: nat, st: State<T>, running: string, target: string, decode: Decoder<T>)
    requires ValidItems(items) && Good(st) && Runs(st, running, forall item | item in items :: item.Call?)
    ensures Emits(st, PrintAll(items, depth), PayloadsAll(items, running, target), target, decode)
    decreases items, 1
  {
    if items == [] {
      assert DecodeAll([], decode) == [];
    } else {
      hide HandleLine, HandleLines, Print, Payloads;
      assert items[0] in items;
      RunItem(items[0], depth, st, running, target, decode);
      RunItems(items[1..], depth, HandleLines(st, Print(items[0], depth), target, decode).state, running, target, decode);
      EmitsThen(st, Print(items[0], depth), Payloads(items[0], running, target),
                PrintAll(items[1..], depth), PayloadsAll(items[1..], running, target), target, decode);
    }
  }

  // The indexer's parser inverts printing: from the log of any forest of successful calls it
  // returns, without error, the target's own decodable payloads in order.
  lemma ParseInvertsPrint<T>(forest: seq<Item>, target: string, decode: Decoder<T>)
    requires ValidItems(forest) && forall item | item in forest :: item.Call?
    ensures var r := HandleLines(State([], false, []), PrintAll(forest, 1), target, decode);
      r.Going? && r.state.events == DecodeAll(PayloadsAll(forest, "", target), decode)
  {
    RunItems(forest, 1, State([], false, []), "", target, decode);
  }

  lemma {:induction false} TsItem(item: Item, depth: nat, stack: seq<string>, running: string, rest: seq<string>, target: string)
    requires ValidItem(item) && (if stack == [] then item.Call? else stack[|stack| - 1] == running)
    ensures TsSelect(stack, Print(item, depth) + rest, target) == Payloads(item, running, target) + TsSelect(stack, rest, target)
    decreases item, 0
  {
    hide IsProgramEnd, Invoked, TsInvoked, TsEnded, InvokeLine, EndLines, TaggedLine;
    match item {
      case Text(t) =>
        TsTagged(stack, "log", t, rest, target);
      case Return(t) =>
        TsTagged(stack, "return", t, rest, target);
      case Consumption(t) =>
        TsTagged(stack, "consumption", t, rest, target);
      case Payload(d) =>
        TaggedQuiet("data", d);
        DataTagged(d);
        TsLine(stack, DATA + d, rest, target);
      case Note(line) =>
        NoteQuiet(line);
        assert PROGRAM <= DATA;
        TsLine(stack, line, rest, target);
      case Call(p, items, units) =>
        TsCall(p, items, units, depth, stack, rest, target);
    }
  }

  lemma {:induction false} TsCall(p: string, items: seq<Item>, units: Option<string>, depth: nat, stack: seq<string>, rest: seq<string>, target: string)
    requires ValidId(p) && ValidItems(items)
    ensures TsSelect(stack, ([InvokeLine(p, depth)] + PrintAll(items, depth + 1) + EndLines(p, units)) + rest, target)
         == PayloadsAll(items, p, target) + TsSelect(stack, rest, target)
    decreases items, 2
  {
    hide InvokeLine, EndLines, TsSelect, ValidId;
    var first, body, end := InvokeLine(p, depth), PrintAll(items, depth + 1), EndLines(p, units) + rest;
    assert ([first] + body + EndLines(p, units)) + rest == [first] + (body + end);
    TsStarts(stack, p, depth, body + end, target);
    TsItems(items, depth + 1, stack + [p], p, end, target);
    TsEnds(stack, p, units, rest, target);
  }

  lemma TsStarts(stack: seq<string>, p: string, depth: nat, rest: seq<string>, target: string)
    requires ValidId(p)
    ensures TsSelect(stack, [InvokeLine(p, depth)] + rest, target) == TsSelect(stack + [p], rest, target)
  {
    InvokeReads(p, depth);
    hide TsInvoked, TsEnded, InvokeLine, TsSelect;
    TsLine(stack, InvokeLine(p, depth), rest, target);
  }

  lemma TsSucceeds(stack: seq<string>, p: string, rest: seq<string>, target: string)
    requires ValidId(p)
    ensures TsSelect(stack + [p], [SuccessLine(p)] + rest, target) == TsSelect(stack, rest, target)
  {
    SuccessReads(p);
    hide TsInvoked, TsEnded, SuccessLine, TsSelect, Invoked, IsProgramEnd, ValidId;
    TsLine(stack + [p], SuccessLine(p), rest, target);
    assert (stack + [p])[..|stack|] == stack;
  }

  lemma TsUnits(stack: seq<string>, p: string, units: string, rest: seq<string>, target: string)
    requires ValidId(p)
    ensures TsSelect(stack, [UnitsLine(p, units)] + rest, target) == TsSelect(stack, rest, target)
  {
    UnitsQuiet(p, units);
    hide TsInvoked, TsEnded, UnitsLine, TsSelect, Invoked, IsProgramEnd, ValidId;
    TsLine(stack, UnitsLine(p, units), rest, target);
  }

  lemma TsEnds(stack: seq<string>, p: string, units: Option<string>, rest: seq<string>, target: string)
    requires ValidId(p)
    ensures TsSelect(stack + [p], EndLines(p, units) + rest, target) == TsSelect(stack, rest, target)
  {
    hide UnitsLine, SuccessLine, TsSelect, ValidId;
    TsSucceeds(stack, p, rest, target);
    if units.Some? {
      TsUnits(stack + [p], p, units.value, [SuccessLine(p)] + rest, target);
      assert EndLines(p, units) + rest == [UnitsLine(p, units.value)] + ([SuccessLine(p)] + rest);
    } else {
      assert EndLines(p, units) == [SuccessLine(p)];
    }
  }

  predicate OnlyCalls(items: seq<Item>) {
    forall item | item in items :: item.Call?
  }

  lemma OnlyCallsSplit(items: seq<Item>)
    requires items != [] && OnlyCalls(items)
    ensures items[0].Call? && OnlyCalls(items[1..])
  {
  }

  lemma {:induction false} TsItems(items: seq<Item>, depth: nat, stack: seq<string>, running: string, rest: seq<string>, target: string)
    requires ValidItems(items)
    requires if stack == [] then OnlyCalls(items) else stack[|stack| - 1] == running
    ensures TsSelect(stack, PrintAll(items, depth) + rest, target) == PayloadsAll(items, running, target) + TsSelect(stack, rest, target)
    decreases items, 1
  {
    if items == [] {
      assert PrintAll(items, depth) + rest == rest;
    } else {
      AllSteps(items, depth, running, target);
      hide TsSelect, Print, Payloads, PrintAll, PayloadsAll, ValidItem, OnlyCalls;
      if stack == [] {
        OnlyCallsSplit(items);
      }
      var later := PrintAll(items[1..], depth) + rest;
      Regroup(Print(items[0], depth), PrintAll(items[1..], depth), rest);
      TsItem(items[0], depth, stack, running, later, target);
      TsItems(items[1..], depth, stack, running, rest, target);
      Regroup(Payloads(items[0], running, target), PayloadsAll(items[1..], running, target), TsSelect(stack, rest, target));
    }
  }

  lemma AllSteps(items: seq<Item>, depth: nat, running: string, target: string)
    requires items != []
    ensures PrintAll(items, depth) == Print(items[0], depth) + PrintAll(items[1..], depth)
    ensures PayloadsAll(items, running, target) == Payloads(items[0], running, target) + PayloadsAll(items[1..], running, target)
  {
  }

  // The two parsers agree: the SDK selects the same payload lines, so the decoded events are equal.
  lemma ParsersAgree<T>(forest: seq<Item>, target: string, decode: Decoder<T>)
    requires ValidItems(forest) && forall item | item in forest :: item.Call?
    ensures TsSelect([], PrintAll(forest, 1), target) == PayloadsAll(forest, "", target)
    ensures HandleLines(State([], false, []), PrintAll(forest, 1), target, decode).Going?
    ensures HandleLines(State([], false, []), PrintAll(forest, 1), target, decode).state.events
         == DecodeAll(TsSelect([], PrintAll(forest, 1), target), decode)
  {
    ParseInvertsPrint(forest, target, decode);
    TsItems(forest, 1, [], "", [], target);
    assert PrintAll(forest, 1) + [] == PrintAll(forest, 1);
    assert TsSelect([], [], target) == [];
  }
}
