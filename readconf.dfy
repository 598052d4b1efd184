/**
 * The configuration reader of src/readconf.c: the `strdelim` token scanner,
 * keyword folding and classification, the per-line directive dispatcher and
 * the `fgets` loop over the configuration file.
 *
 * A C string is a `string` holding the characters before its terminator.
 * A `char*` that may be NULL is an `Option<string>`.
 */
module ReadConf {
  import opened Wrappers

  // ---------------------------------------------------------------------
  // Character classes and the string library calls strdelim relies on
  // ---------------------------------------------------------------------

  /** The characters of the WHITESPACE macro. */
  predicate IsWhitespace(c: char) {
    c == ' ' || c == '\t' || c == '\r' || c == '\n'
  }

  predicate IsQuote(c: char) { c == '"' }

  /** The set strdelim passes to strpbrk: WHITESPACE, QUOTE and '='. */
  predicate IsDelimiter(c: char) {
    IsWhitespace(c) || IsQuote(c) || c == '='
  }

  predicate IsNewline(c: char) { c == '\n' }

  predicate IsNul(c: char) { c == '\0' }

  /** The character sets the scanner searches for with strpbrk. */
  datatype CharClass = Delimiters | Quote | Newline | Nul

  predicate InClass(c: char, cls: CharClass) {
    match cls
    case Delimiters => IsDelimiter(c)
    case Quote => IsQuote(c)
    case Newline => IsNewline(c)
    case Nul => IsNul(c)
  }

  predicate NoDelimiter(s: string) {
    forall k :: 0 <= k < |s| ==> !IsDelimiter(s[k])
  }

  predicate AllWhitespace(s: string) {
    forall k :: 0 <= k < |s| ==> IsWhitespace(s[k])
  }

  predicate IsStrictSuffix(r: string, s: string) {
    |r| < |s| && r == s[|s| - |r|..]
  }

  /** strpbrk: the index of the first character of `s` satisfying `p`. */
  function FindFirst(s: string, p: CharClass): (r: Option<nat>)
    ensures r.Some? ==> r.value < |s| && InClass(s[r.value], p)
  {
    if s == [] then None
    else if InClass(s[0], p) then Some(0)
    else match FindFirst(s[1..], p)
      case None => None
      case Some(i) => Some(i + 1)
  }

  /** Nothing before the index FindFirst reports, and nothing at all when it reports none, is in the class. */
  lemma {:induction false} FindFirstSpec(s: string, p: CharClass)
    ensures var r := FindFirst(s, p);
            && (r.Some? ==> forall k :: 0 <= k < r.value ==> !InClass(s[k], p))
            && (r.None? ==> forall k :: 0 <= k < |s| ==> !InClass(s[k], p))
  {
    if s != [] && !InClass(s[0], p) {
      FindFirstSpec(s[1..], p);
      assert forall k :: 1 <= k < |s| ==> s[k] == s[1..][k - 1];
    }
  }

  /** strspn(s, WHITESPACE): the length of the leading run of whitespace. */
  function SpanWhitespace(s: string): (n: nat)
    ensures n <= |s|
  {
    if s != [] && IsWhitespace(s[0]) then 1 + SpanWhitespace(s[1..]) else 0
  }

  // ---------------------------------------------------------------------
  // strdelim
  // ---------------------------------------------------------------------

  /** What strdelim returns and where it leaves the cursor `*s`. */
  datatype Delimited = Delimited(token: Option<string>, cursor: Option<string>)

  /**
   * strdelim(&s). The token ends at the first delimiter. A double quote is
   * removed (the memmove) and the token continues verbatim up to the next
   * quote; with no closing quote the result is NULL. Otherwise the delimiter
   * is overwritten by the terminator, following whitespace is skipped, and
   * a single '=' (with its own trailing whitespace) is skipped as well unless
   * the delimiter itself was the '='. The cursor is what `*s` points to
   * afterwards: always a strict suffix of the scanned text, or NULL.
   */
  function StrDelim(cursor: Option<string>): (r: Delimited)
    ensures r.cursor.Some? ==> cursor.Some?
    ensures r.token.None? ==> r.cursor.None?
    ensures cursor.None? ==> r.token.None?
  {
    match cursor
    case None => Delimited(None, None)
    case Some(s) =>
      match FindFirst(s, Delimiters)
      case None => Delimited(Some(s), None)
      case Some(i) => if IsQuote(s[i]) then EndQuoted(s, i) else EndUnquoted(s, i)
  }

  /**
   * strdelim after it found the opening quote at `s[i]`: the quote is
   * removed, the token runs to the next quote, which becomes the terminator;
   * whitespace after it is skipped.
   */
  function EndQuoted(s: string, i: nat): (r: Delimited)
    requires i < |s|
    ensures r.cursor.Some? ==> r.token.Some?
    ensures r.token.None? ==> r.cursor.None?
  {
    var t := s[i + 1..];
    match FindFirst(t, Quote)
    case None => Delimited(None, None)
    case Some(j) =>
      var n := SpanWhitespace(t[j + 1..]);
      Delimited(Some(s[..i] + t[..j]), Some(s[i + j + 2 + n..]))
  }

  /**
   * strdelim after it found whitespace or '=' at `s[i]`: the delimiter becomes
   * the terminator, whitespace is skipped, and one '=' with the whitespace
   * after it is skipped too unless `s[i]` was that '='.
   */
  function EndUnquoted(s: string, i: nat): (r: Delimited)
    requires i < |s|
    ensures r.token == Some(s[..i])
    ensures r.cursor.Some?
  {
    var p := i + 1 + SpanWhitespace(s[i + 1..]);
    if s[i] != '=' && p < |s| && s[p] == '=' then
      Delimited(Some(s[..i]), Some(s[p + 1 + SpanWhitespace(s[p + 1..])..]))
    else
      Delimited(Some(s[..i]), Some(s[p..]))
  }

  /** Each call consumes input: the new cursor is a strict suffix of the old one. */
  lemma StrDelimAdvances(cursor: Option<string>)
    ensures var r := StrDelim(cursor);
            r.cursor.Some? ==> cursor.Some? && IsStrictSuffix(r.cursor.value, cursor.value)
  {
    if cursor.Some? {
      var s := cursor.value;
      match FindFirst(s, Delimiters)
      case None =>
      case Some(i) =>
        if IsQuote(s[i]) {
          EndQuotedAdvances(s, i);
        } else {
          EndUnquotedAdvances(s, i);
        }
    }
  }

  lemma EndQuotedAdvances(s: string, i: nat)
    requires i < |s|
    ensures var r := EndQuoted(s, i); r.cursor.Some? ==> IsStrictSuffix(r.cursor.value, s)
  {
    var t := s[i + 1..];
    match FindFirst(t, Quote)
    case None =>
    case Some(j) =>
      var n := SpanWhitespace(t[j + 1..]);
      DropIsStrictSuffix(s, i + j + 2 + n);
  }

  lemma EndUnquotedAdvances(s: string, i: nat)
    requires i < |s|
    ensures IsStrictSuffix(EndUnquoted(s, i).cursor.value, s)
  {
    var p := i + 1 + SpanWhitespace(s[i + 1..]);
    if s[i] != '=' && p < |s| && s[p] == '=' {
      DropIsStrictSuffix(s, p + 1 + SpanWhitespace(s[p + 1..]));
    } else {
      DropIsStrictSuffix(s, p);
    }
  }

  /** Dropping a non-empty prefix leaves a strict suffix. */
  lemma DropIsStrictSuffix(s: string, k: nat)
    requires 0 < k <= |s|
    ensures IsStrictSuffix(s[k..], s)
  {
  }

  // ---------------------------------------------------------------------
  // lowercase and parse_token
  // ---------------------------------------------------------------------

  /** tolower in the C locale: only 'A'..'Z' change. */
  function ToLower(c: char): (r: char)
    ensures !('A' <= r <= 'Z')
    ensures r == c || ('A' <= c <= 'Z' && 'a' <= r <= 'z' && ToUpper(r) == c)
  {
    if 'A' <= c <= 'Z' then (c as int + 32) as char else c
  }

  function ToUpper(c: char): char {
    if 'a' <= c <= 'z' then (c as int - 32) as char else c
  }

  /** The string `lowercase` leaves behind. */
  function Lower(s: string): (r: string)
    ensures |r| == |s|
  {
    if s == [] then [] else [ToLower(s[0])] + Lower(s[1..])
  }

  /** `lowercase` maps each character through tolower and nothing else. */
  lemma {:induction false} LowerAt(s: string)
    ensures forall k :: 0 <= k < |s| ==> Lower(s)[k] == ToLower(s[k])
  {
    if s != [] {
      LowerAt(s[1..]);
      forall k | 1 <= k < |s| ensures Lower(s)[k] == ToLower(s[k]) {
        assert Lower(s)[k] == Lower(s[1..])[k - 1];
      }
    }
  }

  datatype Opcode = ApiKey | SystemName | Bad

  /** parse_token: exact comparison against the two directive names. */
  function ParseToken(cp: string): (op: Opcode)
    ensures op == ApiKey <==> cp == "dmsapikey"
    ensures op == SystemName <==> cp == "systemname"
    ensures op == Bad <==> cp != "dmsapikey" && cp != "systemname"
  {
    if cp == "dmsapikey" then ApiKey
    else if cp == "systemname" then SystemName
    else Bad
  }

  // ---------------------------------------------------------------------
  // Options and process_config_line
  // ---------------------------------------------------------------------

  /** The Options struct: a NULL field is None. */
  datatype Options = Options(apiKey: Option<string>, systemName: Option<string>, verbose: int)

  /** initialize_options: both strings NULL, verbose off. */
  function InitialOptions(): (o: Options)
    ensures o.apiKey.None? && o.systemName.None? && o.verbose == 0
  {
    Options(None, None, 0)
  }

  /** The messages the reader writes to stderr or stdout. */
  datatype Diagnostic =
    | Unreadable         // "<file> is missing or unreadable" (stderr)
    | LineTooLong        // "line too long" (stderr)
    | BadConfiguration   // "bad configuration" (stderr)
    | MissingApiKey      // "missing api key" (stdout)
    | MissingSystemName  // "missing system name" (stdout)
    | BadDirective       // "bad configuration directive" (stdout)

  /**
   * The effect of process_config_line: the new options, the messages it
   * printed and its return value; or NullArgument when a recognised
   * directive has no argument at all and the code reaches strdup(NULL),
   * whose behaviour is undefined.
   */
  datatype LineOutcome =
    | Processed(options: Options, notices: seq<Diagnostic>, rc: int)
    | NullArgument(opcode: Opcode)

  /** The messages process_config_line itself prints. */
  predicate IsNotice(d: Diagnostic) {
    d.MissingApiKey? || d.MissingSystemName? || d.BadDirective?
  }

  /** The folded keyword of a line, or None when the line is empty or strdelim returns NULL. */
  function Keyword(line: string): Option<string> {
    if line == [] then None
    else match StrDelim(Some(line)).token
      case None => None
      case Some(k) => Some(Lower(k))
  }

  /** The directive a line is classified as; a line without a keyword changes nothing, like a bad one. */
  function Directive(line: string): Opcode {
    match Keyword(line)
    case None => Bad
    case Some(k) => ParseToken(k)
  }

  /** The second strdelim result of a line, unfolded. */
  function Argument(line: string): Option<string> {
    StrDelim(StrDelim(Some(line)).cursor).token
  }

  function Notice(op: Opcode): Diagnostic {
    if op == ApiKey then MissingApiKey else MissingSystemName
  }

  function Store(o: Options, op: Opcode, value: Option<string>): Options {
    match op
    case ApiKey => o.(apiKey := value)
    case SystemName => o.(systemName := value)
    case Bad => o
  }

  function Field(o: Options, op: Opcode): Option<string> {
    match op
    case ApiKey => o.apiKey
    case SystemName => o.systemName
    case Bad => None
  }

  /** process_config_line(options, line). */
  function ProcessLine(o: Options, line: string): (r: LineOutcome)
    ensures r.Processed? ==> r.rc == 0
    ensures r.Processed? ==> r.notices == [] || (|r.notices| == 1 && IsNotice(r.notices[0]))
    ensures r.NullArgument? ==> r.opcode != Bad
  {
    if |line| == 0 then Processed(o, [], 0)
    else
      var first := StrDelim(Some(line));
      match first.token
      case None => Processed(o, [], 0)
      case Some(keyword) =>
        match ParseToken(Lower(keyword))
        case ApiKey =>
          var arg := StrDelim(first.cursor).token;
          if arg.None? then NullArgument(ApiKey)
          else Processed(o.(apiKey := arg), if arg.value == "" then [MissingApiKey] else [], 0)
        case SystemName =>
          var arg := StrDelim(first.cursor).token;
          if arg.None? then NullArgument(SystemName)
          else Processed(o.(systemName := arg), if arg.value == "" then [MissingSystemName] else [], 0)
        case Bad => Processed(o, [BadDirective], 0)
  }

  /**
   * What process_config_line does with a line, in terms of its folded
   * keyword and its argument: it always returns 0; an unrecognised keyword
   * changes nothing; a recognised one stores its argument, empty or not,
   * into its field; and a recognised one without any argument reaches
   * strdup(NULL).
   */
  lemma ProcessLineSpec(o: Options, line: string)
    ensures var r := ProcessLine(o, line);
            && (r.Processed? ==> r.rc == 0)
            && (r.NullArgument? <==> Directive(line) != Bad && Argument(line).None?)
            && (Directive(line) == Bad ==>
                  r == Processed(o, if Keyword(line).Some? then [BadDirective] else [], 0))
            && (Directive(line) != Bad && Argument(line).Some? ==>
                  r.Processed? && r.options == Store(o, Directive(line), Argument(line)) &&
                  r.notices == (if Argument(line).value == "" then [Notice(Directive(line))] else []))
  {
  }

  // ---------------------------------------------------------------------
  // read_config_file: fgets into a 1024-byte buffer, one line at a time
  // ---------------------------------------------------------------------

  /** sizeof(line) in read_config_file. */
  const LineBufferSize: nat := 1024

  /** How many characters one fgets call takes from the unread text. */
  function FgetsLength(s: string): (n: nat)
    requires s != []
    ensures 1 <= n <= |s| && n <= LineBufferSize - 1
    ensures forall k :: 0 <= k < n - 1 ==> !IsNewline(s[k])
    ensures IsNewline(s[n - 1]) || n == |s| || n == LineBufferSize - 1
  {
    var limit := if |s| < LineBufferSize - 1 then |s| else LineBufferSize - 1;
    FindFirstSpec(s, Newline);
    match FindFirst(s, Newline)
    case None => limit
    case Some(i) => if i + 1 < limit then i + 1 else limit
  }

  /** The successive buffers fgets fills from the file's text. */
  function Fgets(s: string): (lines: seq<string>)
    ensures forall k :: 0 <= k < |lines| ==> 1 <= |lines[k]| <= LineBufferSize - 1
    decreases |s|
  {
    if s == [] then [] else
    var n := FgetsLength(s);
    [s[..n]] + Fgets(s[n..])
  }

  function Concat(lines: seq<string>): string {
    if lines == [] then [] else lines[0] + Concat(lines[1..])
  }

  /** What strlen and the string functions see of a buffer: the text before its first NUL. */
  function CString(buffer: string): (r: string)
    ensures |r| <= |buffer| && r == buffer[..|r|]
    ensures |r| < |buffer| ==> IsNul(buffer[|r|])
  {
    match FindFirst(buffer, Nul)
    case None => buffer
    case Some(i) => buffer[..i]
  }

  /** The C string of a buffer holds no terminator. */
  lemma CStringHasNoNul(buffer: string)
    ensures forall k :: 0 <= k < |CString(buffer)| ==> !IsNul(CString(buffer)[k])
  {
    FindFirstSpec(buffer, Nul);
  }

  /** The state of the reading loop: running, or stopped at strdup(NULL) on a line. */
  datatype FoldState = Running(options: Options, log: seq<Diagnostic>) | Aborted(line: nat)

  /** One iteration of the fgets loop on buffer `line`, the `index`-th one read. */
  function Step(st: FoldState, line: string, index: nat): (r: FoldState)
    ensures st.Aborted? ==> r == st
    ensures st.Running? && r.Aborted? ==> r.line == index
    ensures st.Running? && r.Running? ==> |st.log| <= |r.log| && r.log[..|st.log|] == st.log
  {
    match st
    case Aborted(_) => st
    case Running(o, log) =>
      var text := CString(line);
      var log' := log + (if |text| == LineBufferSize - 1 then [LineTooLong] else []);
      match ProcessLine(o, text)
      case NullArgument(_) => Aborted(index)
      case Processed(o', notices, rc) =>
        Running(o', log' + notices + (if rc != 0 then [BadConfiguration] else []))
  }

  /** The loop run over `lines`, written from the last line back. */
  function FoldLines(o: Options, lines: seq<string>): (r: FoldState)
    ensures r.Aborted? ==> r.line < |lines|
    decreases |lines|
  {
    if lines == [] then Running(o, [])
    else Step(FoldLines(o, lines[..|lines| - 1]), lines[|lines| - 1], |lines| - 1)
  }

  /** The result of read_config_file: its return value, the options and the messages; or undefined behaviour. */
  datatype ReadOutcome =
    | Finished(rc: int, options: Options, log: seq<Diagnostic>)
    | Undefined(line: nat)

  /** read_config_file; `file` is None when fopen fails. */
  function ReadConfig(file: Option<string>, o: Options): (r: ReadOutcome)
    ensures r.Undefined? ==> file.Some? && r.line < |Fgets(file.value)|
    ensures r.Finished? && file.Some? ==> r.rc == 0
  {
    match file
    case None => Finished(1, o, [Unreadable])
    case Some(text) =>
      match FoldLines(o, Fgets(text))
      case Running(o', log) => Finished(0, o', log)
      case Aborted(k) => Undefined(k)
  }

  /** fgets(line, sizeof(line), f) for one chunk: the chunk's characters, then the terminator. */
  method FillLine(line: array<char>, chunk: string)
    requires |chunk| < line.Length
    modifies line
    ensures line[..|chunk|] == chunk && IsNul(line[|chunk|])
  {
    var k := 0;
    while k < |chunk|
      invariant 0 <= k <= |chunk|
      invariant forall j :: 0 <= j < k ==> line[j] == chunk[j]
    {
      line[k] := chunk[k];
      k := k + 1;
    }
    line[|chunk|] := '\0';
  }

  /** One pass of the loop body: fgets fills the buffer, strlen measures it, process_config_line consumes it. */
  method ConsumeLine(line: array<char>, chunk: string, options: Options) returns (len: nat, outcome: LineOutcome)
    requires |chunk| < line.Length
    modifies line
    ensures len == |CString(chunk)|
    ensures outcome == ProcessLine(options, CString(chunk))
  {
    FillLine(line, chunk);
    BufferCString(line[..], chunk);
    CStringHolds(line[..], 0);
    assert line[..][0..] == line[..];
    len := Strlen(line, 0, CString(chunk));
    outcome := ProcessConfigLine(options, line);
  }

  /**
   * One iteration of the loop body on the buffer `line`: fgets, the
   * "line too long" check and process_config_line, from a running state.
   */
  method LoopBody(line: array<char>, chunk: string, opts: Options, log: seq<Diagnostic>, index: nat)
    returns (st: FoldState)
    requires |chunk| < line.Length
    modifies line
    ensures st == Step(Running(opts, log), chunk, index)
  {
    var len, outcome := ConsumeLine(line, chunk, opts);
    if outcome.NullArgument? {
      StepAborts(Running(opts, log), chunk, index);
      return Aborted(index);
    }
    StepProcessed(Running(opts, log), chunk, index);
    var log' := log + (if len == LineBufferSize - 1 then [LineTooLong] else []);
    st := Running(outcome.options, log' + outcome.notices + (if outcome.rc != 0 then [BadConfiguration] else []));
  }

  /** read_config_file as the C loop runs it, with the 1024-character line buffer. */
  method ReadConfigFile(file: Option<string>, options: Options) returns (result: ReadOutcome)
    ensures result == ReadConfig(file, options)
  {
    if file.None? {
      return Finished(1, options, [Unreadable]);
    }
    var line := new char[LineBufferSize];
    var rest := file.value;
    var opts := options;
    var log: seq<Diagnostic> := [];
    var count: nat := 0;
    ghost var done: seq<string> := [];
    while rest != []
      invariant count == |done|
      invariant done + Fgets(rest) == Fgets(file.value)
      invariant FoldLines(options, done) == Running(opts, log)
      decreases |rest|
    {
      var n := FgetsLength(rest);
      var chunk := rest[..n];
      FgetsStep(rest);
      rest := rest[n..];
      AppendAssoc(done, [chunk], Fgets(rest));
      var st := LoopBody(line, chunk, opts, log, count);
      FoldSnoc(options, done, chunk);
      if st.Aborted? {
        FoldAborted(options, done + [chunk], Fgets(rest));
        return Undefined(count);
      }
      opts, log := st.options, st.log;
      done := done + [chunk];
      count := count + 1;
    }
    assert done == Fgets(file.value);
    result := Finished(0, opts, log);
  }

  // ---------------------------------------------------------------------
  // The line buffer: strdelim, lowercase and process_config_line in place
  // ---------------------------------------------------------------------

  /** From index `x` the buffer holds the C string `t`: its characters, then the terminator. */
  ghost predicate HoldsAt(a: seq<char>, x: nat, t: string) {
    && x + |t| < |a|
    && a[x..x + |t|] == t
    && IsNul(a[x + |t|])
    && forall k :: 0 <= k < |t| ==> !IsNul(t[k])
  }

  /** A terminator follows index `x`: the string functions may be applied there. */
  ghost predicate Terminated(a: seq<char>, x: nat) {
    x <= |a| && |CString(a[x..])| < |a| - x
  }

  /** strlen(a + from). */
  method Strlen(a: array<char>, from: nat, ghost t: string) returns (n: nat)
    requires HoldsAt(a[..], from, t)
    ensures n == |t|
  {
    n := 0;
    while !IsNul(a[from + n])
      invariant n <= |t|
      decreases |t| - n
    {
      n := n + 1;
    }
    HoldsAtIndex(a[..], from, t, n);
  }

  /** strpbrk(a + from, set): the index of the first character of the C string in the set, or NULL. */
  method Strpbrk(a: array<char>, from: nat, cls: CharClass, ghost t: string) returns (r: Option<nat>)
    requires HoldsAt(a[..], from, t) && cls != Nul
    ensures r.None? ==> FindFirst(t, cls).None?
    ensures r.Some? ==> from <= r.value && FindFirst(t, cls) == Some(r.value - from)
  {
    var i := from;
    while !IsNul(a[i]) && !InClass(a[i], cls)
      invariant from <= i <= from + |t|
      invariant forall k :: 0 <= k < i - from ==> !InClass(t[k], cls)
      decreases from + |t| - i
    {
      HoldsAtIndex(a[..], from, t, i - from);
      i := i + 1;
    }
    HoldsAtIndex(a[..], from, t, i - from);
    if IsNul(a[i]) {
      r := None;
    } else {
      FindFirstAfter(t, cls, i - from);
      r := Some(i);
    }
  }

  /** from + strspn(a + from, WHITESPACE): the index after the run of whitespace. */
  method SkipSpaces(a: array<char>, from: nat, ghost t: string) returns (m: nat)
    requires HoldsAt(a[..], from, t)
    ensures m == from + SpanWhitespace(t)
    ensures HoldsAt(a[..], m, t[SpanWhitespace(t)..])
  {
    m := from;
    while IsWhitespace(a[m])
      invariant from <= m <= from + |t|
      invariant forall k :: 0 <= k < m - from ==> IsWhitespace(t[k])
      decreases from + |t| - m
    {
      HoldsAtIndex(a[..], from, t, m - from);
      m := m + 1;
    }
    HoldsAtIndex(a[..], from, t, m - from);
    SpanAt(t, m - from);
    SuffixHolds(a[..], from, t, m);
  }

  /** memmove(a + i, a + i + 1, n): the `n` characters after index `i` move one place down. */
  method ShiftDown(a: array<char>, i: nat, n: nat)
    requires i + n < a.Length
    modifies a
    ensures a[..i] == old(a[..i])
    ensures a[i..i + n] == old(a[i + 1..i + n + 1])
    ensures a[i + n..] == old(a[i + n..])
  {
    var k := 0;
    while k < n
      invariant 0 <= k <= n
      invariant forall j :: 0 <= j < i ==> a[j] == old(a[j])
      invariant forall j :: i <= j < i + k ==> a[j] == old(a[j + 1])
      invariant forall j :: i + k <= j < a.Length ==> a[j] == old(a[j])
    {
      a[i + k] := a[i + k + 1];
      k := k + 1;
    }
  }

  /** lowercase(a + from): folds the characters of the C string at `from`, up to its terminator, and nothing else. */
  method Lowercase(a: array<char>, from: nat, ghost t: string)
    requires HoldsAt(a[..], from, t)
    modifies a
    ensures HoldsAt(a[..], from, Lower(t))
    ensures a[..from] == old(a[..from])
    ensures a[from + |t|..] == old(a[from + |t|..])
  {
    ghost var before := a[..];
    var i := from;
    while !IsNul(a[i])
      invariant from <= i <= from + |t|
      invariant forall k :: from <= k < i ==> a[k] == ToLower(t[k - from])
      invariant forall k :: 0 <= k < a.Length && !(from <= k < i) ==> a[k] == before[k]
      decreases from + |t| - i
    {
      HoldsAtIndex(before, from, t, i - from);
      a[i] := ToLower(a[i]);
      i := i + 1;
    }
    HoldsAtIndex(before, from, t, i - from);
    assert a[from..from + |t|] == Lower(t) by {
      LowerAt(t);
    }
  }

  /** The buffer still holds `t` at `x` when nothing from `y <= x` on has changed. */
  lemma HoldsAtFrame(a: seq<char>, b: seq<char>, y: nat, x: nat, t: string)
    requires HoldsAt(a, x, t) && |a| == |b| && y <= x && a[y..] == b[y..]
    ensures HoldsAt(b, x, t)
  {
    forall j | y <= j < |a| ensures a[j] == b[j] {
      assert a[j] == a[y..][j - y];
    }
    assert b[x..x + |t|] == a[x..x + |t|];
  }

  /** The characters of a held C string, and its terminator. */
  lemma HoldsAtIndex(a: seq<char>, x: nat, t: string, k: nat)
    requires HoldsAt(a, x, t) && k <= |t|
    ensures k < |t| ==> a[x + k] == t[k] && !IsNul(a[x + k])
    ensures k == |t| ==> IsNul(a[x + k])
  {
    if k < |t| {
      assert a[x + k] == a[x..x + |t|][k];
    }
  }

  lemma CStringHolds(a: seq<char>, x: nat)
    requires Terminated(a, x)
    ensures HoldsAt(a, x, CString(a[x..]))
  {
    CStringHasNoNul(a[x..]);
    var t := CString(a[x..]);
    assert a[x..][..|t|] == a[x..x + |t|];
  }

  lemma HoldsAtCString(a: seq<char>, x: nat, t: string)
    requires HoldsAt(a, x, t)
    ensures Terminated(a, x) && CString(a[x..]) == t
  {
    assert a[x..][..|t|] == t;
    FindFirstAfter(a[x..], Nul, |t|);
  }

  /** A C string held at `x` holds each of its suffixes further on. */
  lemma SuffixHolds(a: seq<char>, x: nat, t: string, y: nat)
    requires HoldsAt(a, x, t) && x <= y <= x + |t|
    ensures HoldsAt(a, y, t[y - x..])
  {
    assert a[y..x + |t|] == a[x..x + |t|][y - x..];
  }

  /** Writing outside a C string and its terminator leaves it in place. */
  lemma UpdateOutside(a: seq<char>, i: nat, c: char, x: nat, t: string)
    requires HoldsAt(a, x, t) && i < |a| && (i < x || x + |t| < i)
    ensures HoldsAt(a[i := c], x, t)
  {
    assert a[i := c][x..x + |t|] == a[x..x + |t|];
  }

  /** A terminator written into a C string ends it there; the rest stays held after the terminator. */
  lemma CutAt(a: seq<char>, x: nat, t: string, d: nat)
    requires HoldsAt(a, x, t) && d < |t|
    ensures HoldsAt(a[x + d := '\0'], x, t[..d])
    ensures HoldsAt(a[x + d := '\0'], x + d + 1, t[d + 1..])
  {
    TerminateAt(a, x, t, x + d);
    SuffixHolds(a, x, t, x + d + 1);
    UpdateOutside(a, x + d, '\0', x + d + 1, t[d + 1..]);
  }

  /** Writing a terminator inside a C string cuts it there. */
  lemma TerminateAt(a: seq<char>, x: nat, t: string, w: nat)
    requires HoldsAt(a, x, t) && x <= w <= x + |t|
    ensures HoldsAt(a[w := '\0'], x, t[..w - x])
  {
    var b := a[w := '\0'];
    assert b[x..w] == a[x..w] by {
      forall k | x <= k < w ensures b[k] == a[k] {}
    }
    assert a[x..w] == a[x..x + |t|][..w - x];
  }

  /** After the memmove of the quote branch the string at `x` has lost its character at `i`. */
  lemma ShiftedHolds(before: seq<char>, after: seq<char>, x: nat, s: string, i: nat)
    requires HoldsAt(before, x, s) && x <= i < x + |s| && |after| == |before|
    requires after[..i] == before[..i]
    requires after[i..x + |s|] == before[i + 1..x + |s| + 1]
    requires after[x + |s|..] == before[x + |s|..]
    ensures HoldsAt(after, x, s[..i - x] + s[i - x + 1..])
  {
    var u := s[..i - x] + s[i - x + 1..];
    assert after[x..i] == before[x..i] == s[..i - x] by {
      assert after[x..i] == after[..i][x..];
      assert before[x..i] == before[..i][x..];
      assert before[x..i] == before[x..x + |s|][..i - x];
    }
    forall k | i <= k < x + |s| - 1
      ensures after[k] == s[k - x + 1]
    {
      assert after[k] == after[i..x + |s|][k - i];
      assert after[k] == before[k + 1];
      assert before[k + 1] == before[x..x + |s|][k - x + 1];
    }
    assert after[i..x + |s| - 1] == s[i - x + 1..];
    assert after[x..x + |u|] == after[x..i] + after[i..x + |s| - 1];
    assert after[x + |u|] == before[x + |s|] by {
      assert after[x + |s| - 1] == after[i..x + |s|][x + |s| - 1 - i];
    }
  }

  /** A buffer filled by fgets holds the C string of the chunk. */
  lemma BufferCString(a: seq<char>, chunk: string)
    requires |chunk| < |a| && a[..|chunk|] == chunk && IsNul(a[|chunk|])
    ensures Terminated(a, 0) && CString(a) == CString(chunk)
  {
    assert a[0..] == a;
    FindFirstSpec(chunk, Nul);
    match FindFirst(chunk, Nul)
    case None =>
      FindFirstAfter(a, Nul, |chunk|);
    case Some(i) =>
      FindFirstAfter(a, Nul, i);
      assert a[..i] == chunk[..i];
  }

  /** The unquoted branch of strdelim: `a[i]` is whitespace or '=' of the C string `s` at `start`. */
  method EndUnquotedAt(a: array<char>, start: nat, i: nat, ghost s: string) returns (cursor: nat)
    requires HoldsAt(a[..], start, s) && start <= i < start + |s|
    requires IsDelimiter(s[i - start]) && !IsQuote(s[i - start])
    modifies a
    ensures var r := EndUnquoted(s, i - start);
            HoldsAt(a[..], start, r.token.value) && HoldsAt(a[..], cursor, r.cursor.value)
    ensures i < cursor
  {
    ghost var d := i - start;
    ghost var before := a[..];
    HoldsAtIndex(before, start, s, d);
    var wspace := a[i] == '=';
    a[i] := '\0';
    assert a[..] == before[start + d := '\0'];
    CutAt(before, start, s, d);
    cursor := SkipSpaces(a, i + 1, s[d + 1..]);
    UnquotedCursor(a[..], start, s, d, cursor, wspace);
    assert a[cursor] == a[..][cursor];
    if a[cursor] == '=' && !wspace {
      cursor := SkipSpaces(a, cursor + 1, s[cursor - start + 1..]);
    }
  }

  /** Where the first whitespace run of the unquoted branch ends, and what strdelim does next. */
  lemma UnquotedCursor(a: seq<char>, start: nat, s: string, d: nat, c: nat, wspace: bool)
    requires d < |s| && wspace == (s[d] == '=')
    requires c == start + d + 1 + SpanWhitespace(s[d + 1..])
    requires HoldsAt(a, c, s[d + 1..][SpanWhitespace(s[d + 1..])..])
    ensures start + d < c
    ensures !(a[c] == '=' && !wspace) ==>
              HoldsAt(a, c, EndUnquoted(s, d).cursor.value)
    ensures a[c] == '=' && !wspace ==>
              c - start < |s| && HoldsAt(a, c + 1, s[c - start + 1..]) &&
              EndUnquoted(s, d).cursor.value == s[c - start + 1..][SpanWhitespace(s[c - start + 1..])..]
  {
    SkippedRun(s, d + 1);
    if a[c] == '=' && !wspace {
      UnquotedAbsorbs(a, start, s, d, c);
    } else {
      UnquotedStops(a, start, s, d, c, wspace);
    }
  }

  /** The text after a whitespace run is the suffix at the index where it ends. */
  lemma SkippedRun(s: string, k: nat)
    requires k <= |s|
    ensures s[k..][SpanWhitespace(s[k..])..] == s[k + SpanWhitespace(s[k..])..]
  {
  }

  lemma UnquotedStops(a: seq<char>, start: nat, s: string, d: nat, c: nat, wspace: bool)
    requires d < |s| && wspace == (s[d] == '=')
    requires c == start + d + 1 + SpanWhitespace(s[d + 1..])
    requires HoldsAt(a, c, s[c - start..])
    requires !(a[c] == '=' && !wspace)
    ensures HoldsAt(a, c, EndUnquoted(s, d).cursor.value)
  {
    var p := c - start;
    HoldsAtIndex(a, c, s[p..], 0);
    assert !(s[d] != '=' && p < |s| && s[p] == '=');
  }

  lemma UnquotedAbsorbs(a: seq<char>, start: nat, s: string, d: nat, c: nat)
    requires d < |s| && s[d] != '='
    requires c == start + d + 1 + SpanWhitespace(s[d + 1..])
    requires HoldsAt(a, c, s[c - start..])
    requires a[c] == '='
    ensures c - start < |s| && HoldsAt(a, c + 1, s[c - start + 1..])
    ensures EndUnquoted(s, d).cursor.value == s[c - start + 1..][SpanWhitespace(s[c - start + 1..])..]
  {
    NextHolds(a, c, s, c - start);
    EndUnquotedAbsorbs(s, d, c - start);
  }

  /** Stepping over one character of a held suffix of `s`. */
  lemma NextHolds(a: seq<char>, x: nat, s: string, p: nat)
    requires p <= |s| && HoldsAt(a, x, s[p..]) && a[x] == '='
    ensures p < |s| && HoldsAt(a, x + 1, s[p + 1..])
  {
    HoldsAtIndex(a, x, s[p..], 0);
    SuffixHolds(a, x, s[p..], x + 1);
    assert s[p..][1..] == s[p + 1..];
  }

  lemma EndUnquotedAbsorbs(s: string, d: nat, p: nat)
    requires d < |s| && s[d] != '=' && p == d + 1 + SpanWhitespace(s[d + 1..])
    requires p < |s| && s[p] == '='
    ensures EndUnquoted(s, d).cursor.value == s[p + 1..][SpanWhitespace(s[p + 1..])..]
  {
    SkippedRun(s, p + 1);
  }

  /** The quote branch of strdelim: `a[i]` is the opening quote of the C string `s` at `start`. */
  method EndQuotedAt(a: array<char>, start: nat, i: nat, ghost s: string)
    returns (token: Option<nat>, cursor: Option<nat>)
    requires HoldsAt(a[..], start, s) && start <= i < start + |s| && IsQuote(s[i - start])
    modifies a
    ensures var r := EndQuoted(s, i - start);
            && (token.Some? <==> r.token.Some?)
            && (cursor.Some? <==> r.cursor.Some?)
            && (token.Some? ==> token.value == start && HoldsAt(a[..], start, r.token.value))
            && (cursor.Some? ==> HoldsAt(a[..], cursor.value, r.cursor.value))
            && (cursor.Some? ==> start + |r.token.value| < cursor.value)
  {
    ghost var d := i - start;
    DropOpeningQuote(a, start, i, s);
    var q := Strpbrk(a, i, Quote, s[d + 1..]);
    if q.None? {
      assert EndQuoted(s, d) == Delimited(None, None);
      return None, None;
    }
    token, cursor := CloseQuote(a, start, i, q.value, s);
  }

  /** The memmove that removes the opening quote at `a[i]`, keeping the terminator. */
  method DropOpeningQuote(a: array<char>, start: nat, i: nat, ghost s: string)
    requires HoldsAt(a[..], start, s) && start <= i < start + |s|
    modifies a
    ensures HoldsAt(a[..], start, s[..i - start] + s[i - start + 1..])
    ensures HoldsAt(a[..], i, s[i - start + 1..])
  {
    ghost var before := a[..];
    SuffixHolds(before, start, s, i);
    var len := Strlen(a, i, s[i - start..]);
    ShiftDown(a, i, len);
    QuoteRemoved(before, a[..], start, s, i);
  }

  /** The closing quote found at `a[j]` becomes the terminator and the cursor skips the blanks after it. */
  method CloseQuote(a: array<char>, start: nat, i: nat, j: nat, ghost s: string)
    returns (token: Option<nat>, cursor: Option<nat>)
    requires start <= i < start + |s| && i <= j
    requires HoldsAt(a[..], start, s[..i - start] + s[i - start + 1..])
    requires FindFirst(s[i - start + 1..], Quote) == Some(j - i)
    modifies a
    ensures var r := EndQuoted(s, i - start);
            && token == Some(start) && cursor.Some? && r.token.Some? && r.cursor.Some?
            && HoldsAt(a[..], start, r.token.value)
            && HoldsAt(a[..], cursor.value, r.cursor.value)
            && start + |r.token.value| < cursor.value
  {
    ghost var shifted := a[..];
    ghost var tail := s[i - start + 1..][j - i + 1..];
    a[j] := '\0';
    assert a[..] == shifted[j := '\0'];
    assert HoldsAt(a[..], j + 1, tail) by {
      QuoteClosedAt(shifted, start, s, i, j);
    }
    var m := SkipSpaces(a, j + 1, tail);
    QuoteClosedCursor(shifted, a[..], start, s, i, j, m);
    token, cursor := Some(start), Some(m);
  }

  /** The state `CloseQuote` leaves, stated over the buffer's contents: `m` is where the blanks after the quote end. */
  lemma QuoteClosedCursor(shifted: seq<char>, b: seq<char>, start: nat, s: string, i: nat, j: nat, m: nat)
    requires start <= i < start + |s| && i <= j < |shifted| && b == shifted[j := '\0']
    requires HoldsAt(shifted, start, s[..i - start] + s[i - start + 1..])
    requires FindFirst(s[i - start + 1..], Quote) == Some(j - i)
    requires var tail := s[i - start + 1..][j - i + 1..];
             m == j + 1 + SpanWhitespace(tail) && HoldsAt(b, m, tail[SpanWhitespace(tail)..])
    ensures var r := EndQuoted(s, i - start);
            && r.token.Some? && r.cursor.Some?
            && HoldsAt(b, start, r.token.value)
            && HoldsAt(b, m, r.cursor.value)
            && start + |r.token.value| < m
  {
    QuoteClosedAt(shifted, start, s, i, j);
  }

  /** After the memmove the string at `start` has lost its opening quote, and the text after it starts at `i`. */
  lemma QuoteRemoved(before: seq<char>, after: seq<char>, start: nat, s: string, i: nat)
    requires HoldsAt(before, start, s) && start <= i < start + |s| && |after| == |before|
    requires after[..i] == before[..i]
    requires after[i..i + |s[i - start..]|] == before[i + 1..i + |s[i - start..]| + 1]
    requires after[i + |s[i - start..]|..] == before[i + |s[i - start..]|..]
    ensures HoldsAt(after, start, s[..i - start] + s[i - start + 1..])
    ensures HoldsAt(after, i, s[i - start + 1..])
  {
    var d := i - start;
    ShiftedHolds(before, after, start, s, i);
    var u := s[..d] + s[d + 1..];
    SuffixHolds(after, start, u, i);
    assert u[d..] == s[d + 1..];
  }

  /** The closing quote at `j` becomes the terminator: the token is complete and the text after it is held from `j + 1`. */
  lemma QuoteClosedAt(a: seq<char>, start: nat, s: string, i: nat, j: nat)
    requires start <= i < start + |s| && i <= j
    requires HoldsAt(a, start, s[..i - start] + s[i - start + 1..])
    requires FindFirst(s[i - start + 1..], Quote) == Some(j - i)
    ensures var r := EndQuoted(s, i - start);
            && r.token.Some? && r.cursor.Some?
            && HoldsAt(a[j := '\0'], start, r.token.value)
            && start + |r.token.value| == j
            && HoldsAt(a[j := '\0'], j + 1, s[i - start + 1..][j - i + 1..])
            && r.cursor.value == s[i - start + 1..][j - i + 1..][SpanWhitespace(s[i - start + 1..][j - i + 1..])..]
  {
    EndQuotedValue(s, i - start, j - i);
    QuoteToken(a, start, s, i, j);
    QuoteTail(a, start, s, i, j);
  }

  lemma EndQuotedValue(s: string, d: nat, jj: nat)
    requires d < |s| && FindFirst(s[d + 1..], Quote) == Some(jj)
    ensures var t := s[d + 1..];
            EndQuoted(s, d) == Delimited(Some(s[..d] + t[..jj]), Some(t[jj + 1..][SpanWhitespace(t[jj + 1..])..]))
  {
    var t := s[d + 1..];
    var u := t[jj + 1..];
    assert u == s[d + jj + 2..];
    var n := SpanWhitespace(u);
    assert u[n..] == s[d + jj + 2 + n..];
  }

  lemma QuoteToken(a: seq<char>, start: nat, s: string, i: nat, j: nat)
    requires start <= i < start + |s| && i <= j
    requires HoldsAt(a, start, s[..i - start] + s[i - start + 1..])
    requires j - i < |s[i - start + 1..]|
    ensures HoldsAt(a[j := '\0'], start, s[..i - start] + s[i - start + 1..][..j - i])
  {
    var d := i - start;
    var t := s[d + 1..];
    var u := s[..d] + t;
    TerminateAt(a, start, u, j);
    assert u[..j - start] == s[..d] + t[..j - i];
  }

  lemma QuoteTail(a: seq<char>, start: nat, s: string, i: nat, j: nat)
    requires start <= i < start + |s| && i <= j
    requires HoldsAt(a, start, s[..i - start] + s[i - start + 1..])
    requires j - i < |s[i - start + 1..]|
    ensures HoldsAt(a[j := '\0'], j + 1, s[i - start + 1..][j - i + 1..])
  {
    var d := i - start;
    var t := s[d + 1..];
    var u := s[..d] + t;
    SuffixHolds(a, start, u, j + 1);
    assert u[j + 1 - start..] == t[j - i + 1..];
    UpdateOutside(a, j, '\0', j + 1, t[j - i + 1..]);
  }

  /**
   * strdelim(&s) on the line buffer. `start` is the cursor `*s` as an index,
   * None for NULL; `s` is the C string it points to. The results are the
   * returned pointer and the new cursor, as indices. The token and the new
   * cursor hold what the specification function StrDelim computes, and the
   * cursor lies beyond the token's terminator.
   */
  method StrDelimAt(a: array<char>, start: Option<nat>, ghost s: Option<string>)
    returns (token: Option<nat>, cursor: Option<nat>)
    requires start.Some? <==> s.Some?
    requires start.Some? ==> HoldsAt(a[..], start.value, s.value)
    modifies a
    ensures var r := StrDelim(s);
            && (token.Some? <==> r.token.Some?)
            && (cursor.Some? <==> r.cursor.Some?)
            && (token.Some? ==> token == start && HoldsAt(a[..], token.value, r.token.value))
            && (cursor.Some? ==> HoldsAt(a[..], cursor.value, r.cursor.value))
            && (cursor.Some? ==> token.value + |r.token.value| < cursor.value)
  {
    if start.None? {
      return None, None;
    }
    var from := start.value;
    var found := Strpbrk(a, from, Delimiters, s.value);
    if found.None? {
      return Some(from), None;
    }
    var i := found.value;
    assert a[i] == a[..][from..from + |s.value|][i - from];
    if IsQuote(a[i]) {
      token, cursor := EndQuotedAt(a, from, i, s.value);
    } else {
      var c := EndUnquotedAt(a, from, i, s.value);
      token, cursor := Some(from), Some(c);
    }
  }

  /**
   * process_config_line(options, line) on the fgets buffer: the first
   * strdelim ends the keyword, which is folded in place by `lowercase`; a
   * recognised directive scans its argument with the second strdelim and
   * stores a copy of it (strdup).
   */
  method ProcessConfigLine(options: Options, a: array<char>) returns (outcome: LineOutcome)
    requires Terminated(a[..], 0)
    modifies a
    ensures outcome == ProcessLine(options, CString(old(a[..])))
  {
    ghost var line := CString(a[..]);
    assert a[..][0..] == a[..];
    CStringHolds(a[..], 0);
    var len := Strlen(a, 0, line);
    if len == 0 {
      return Processed(options, [], 0);
    }
    ghost var first := StrDelim(Some(line));
    var keyword, s := StrDelimAt(a, Some(0), Some(line));
    if keyword.None? {
      return Processed(options, [], 0);
    }
    ghost var kw := first.token.value;
    ghost var scanned := a[..];
    Lowercase(a, keyword.value, kw);
    HoldsAtCString(a[..], keyword.value, Lower(kw));
    var opcode := ParseToken(CString(a[..][keyword.value..]));
    if opcode == Bad {
      return Processed(options, [BadDirective], 0);
    }
    if s.Some? {
      HoldsAtFrame(scanned, a[..], keyword.value + |kw|, s.value, first.cursor.value);
    }
    outcome := StoreArgument(options, opcode, a, s, first.cursor);
  }

  /**
   * The recognised-directive arms of process_config_line: the second
   * strdelim scans the argument from cursor `s`; an empty argument is
   * reported and still stored; a NULL one reaches strdup(NULL).
   */
  method StoreArgument(options: Options, opcode: Opcode, a: array<char>, s: Option<nat>, ghost cursor: Option<string>)
    returns (outcome: LineOutcome)
    requires opcode != Bad
    requires s.Some? <==> cursor.Some?
    requires s.Some? ==> HoldsAt(a[..], s.value, cursor.value)
    modifies a
    ensures var arg := StrDelim(cursor).token;
            outcome == if arg.None? then NullArgument(opcode)
                       else Processed(Store(options, opcode, arg), if arg.value == "" then [Notice(opcode)] else [], 0)
  {
    var arg, _ := StrDelimAt(a, s, cursor);
    if arg.None? {
      return NullArgument(opcode);
    }
    ghost var value := StrDelim(cursor).token.value;
    HoldsAtCString(a[..], arg.value, value);
    var notices := if IsNul(a[arg.value]) then [Notice(opcode)] else [];
    if |value| > 0 {
      assert a[arg.value] == a[..][arg.value..arg.value + |value|][0];
    }
    outcome := Processed(Store(options, opcode, Some(CString(a[..][arg.value..]))), notices, 0);
  }

  // ---------------------------------------------------------------------
  // Properties of the scanner
  // ---------------------------------------------------------------------

  /** The first character satisfying `p` after a prefix that has none. */
  lemma {:induction false} FindFirstAfter(s: string, p: CharClass, i: nat)
    requires i < |s| && InClass(s[i], p)
    requires forall k :: 0 <= k < i ==> !InClass(s[k], p)
    ensures FindFirst(s, p) == Some(i)
  {
    if i > 0 {
      FindFirstAfter(s[1..], p, i - 1);
    }
  }

  lemma {:induction false} SpanAfterWhitespace(w: string, rest: string)
    requires AllWhitespace(w)
    requires rest == [] || !IsWhitespace(rest[0])
    ensures SpanWhitespace(w + rest) == |w|
  {
    if w != [] {
      assert (w + rest)[1..] == w[1..] + rest;
      SpanAfterWhitespace(w[1..], rest);
    }
  }

  /** With no delimiter left, strdelim returns the whole remainder and exhausts the cursor; the next call returns NULL. */
  lemma NoDelimiterExhausts(s: string)
    requires NoDelimiter(s)
    ensures StrDelim(Some(s)) == Delimited(Some(s), None)
    ensures StrDelim(StrDelim(Some(s)).cursor) == Delimited(None, None)
  {
  }

  /**
   * A quote inside a token: the result is the text before the quote followed
   * by the quoted text verbatim, and whitespace after the closing quote is
   * skipped.
   */
  lemma {:induction false} QuotedToken(p: string, q: string, w: string, rest: string)
    requires NoDelimiter(p)
    requires forall k :: 0 <= k < |q| ==> !IsQuote(q[k])
    requires AllWhitespace(w)
    requires rest == [] || !IsWhitespace(rest[0])
    ensures StrDelim(Some(p + "\"" + q + "\"" + w + rest)) == Delimited(Some(p + q), Some(rest))
  {
    var tail := w + rest;
    SpanAfterWhitespace(w, rest);
    QuotedBeforeTail(p, q, tail);
    assert p + "\"" + q + "\"" + w + rest == p + "\"" + q + "\"" + tail;
    assert tail[|w|..] == rest;
  }

  lemma {:induction false} QuotedBeforeTail(p: string, q: string, tail: string)
    requires NoDelimiter(p)
    requires forall k :: 0 <= k < |q| ==> !IsQuote(q[k])
    ensures StrDelim(Some(p + "\"" + q + "\"" + tail)) ==
            Delimited(Some(p + q), Some(tail[SpanWhitespace(tail)..]))
  {
    var s := p + "\"" + q + "\"" + tail;
    assert s == p + ("\"" + (q + "\"" + tail));
    FindAfterPrefix(p, "\"" + (q + "\"" + tail), Delimiters);
    QuoteClosed(p, q, tail);
  }

  /**
   * Only blanks are skipped after a closing quote, so a quoted keyword
   * followed directly by '=' has the empty string as its argument.
   */
  lemma QuotedKeywordEquals(q: string, more: string)
    requires forall k :: 0 <= k < |q| ==> !IsQuote(q[k])
    ensures Keyword("\"" + q + "\"" + "=" + more) == Some(Lower(q))
    ensures Argument("\"" + q + "\"" + "=" + more) == Some("")
  {
    var quoted := "\"" + q + "\"";
    var tail := "=" + more;
    AppendAssoc(quoted, "=", more);
    assert [] + "\"" == "\"";
    QuotedBeforeTail([], q, tail);
    assert [] + q == q;
    assert ("\"" + q + "\"" + "=" + more)[0] == '"';
    assert SpanWhitespace(tail) == 0;
    assert [] + "=" == "=";
    EqualsSeparator([], more);
  }

  /** The first character satisfying `p` in `a + b`, when `a` has none and `b` starts with one. */
  lemma {:induction false} FindAfterPrefix(a: string, b: string, p: CharClass)
    requires forall k :: 0 <= k < |a| ==> !InClass(a[k], p)
    requires b != [] && InClass(b[0], p)
    ensures FindFirst(a + b, p) == Some(|a|)
  {
    if a != [] {
      assert (a + b)[1..] == a[1..] + b;
      FindAfterPrefix(a[1..], b, p);
    }
  }

  /** The quote branch of strdelim when the closing quote is present. */
  lemma {:induction false} QuoteClosed(p: string, q: string, tail: string)
    requires forall k :: 0 <= k < |q| ==> !IsQuote(q[k])
    ensures EndQuoted(p + "\"" + q + "\"" + tail, |p|) ==
            Delimited(Some(p + q), Some(tail[SpanWhitespace(tail)..]))
  {
    var s := p + "\"" + q + "\"" + tail;
    var t := s[|p| + 1..];
    assert t == q + ("\"" + tail) by {
      assert s == p + "\"" + (q + "\"" + tail);
    }
    FindAfterPrefix(q, "\"" + tail, Quote);
    var n := SpanWhitespace(t[|q| + 1..]);
    assert t[|q| + 1..] == tail;
    assert EndQuoted(s, |p|) == Delimited(Some(s[..|p|] + t[..|q|]), Some(s[|p| + |q| + 2 + n..]));
    assert s[..|p|] == p;
    assert t[..|q|] == q;
    assert s[|p| + |q| + 2 + n..] == tail[n..] by {
      assert s == (p + "\"" + q + "\"") + tail;
    }
  }

  /** A quote with no closing quote makes strdelim return NULL and clears the cursor. */
  lemma {:induction false} UnterminatedQuote(p: string, q: string)
    requires NoDelimiter(p)
    requires forall k :: 0 <= k < |q| ==> !IsQuote(q[k])
    ensures StrDelim(Some(p + "\"" + q)) == Delimited(None, None)
  {
    var s := p + "\"" + q;
    FindFirstAfter(s, Delimiters, |p|);
    assert s[|p| + 1..] == q;
  }

  /**
   * `key=value`, `key= value`, `key =value`, `key = value` and `key value` all
   * end the keyword at the same place and leave the cursor on the value. Only
   * one '=' is absorbed: when `rest` itself starts with '=', the cursor stays
   * on it.
   */
  lemma {:induction false} SeparatorAbsorbed(key: string, w1: string, w2: string, rest: string)
    requires NoDelimiter(key) && AllWhitespace(w1) && AllWhitespace(w2)
    requires rest == [] || !IsWhitespace(rest[0])
    ensures StrDelim(Some(key + w1 + "=" + w2 + rest)) == Delimited(Some(key), Some(rest))
    ensures |w1| > 0 && (rest == [] || rest[0] != '=') ==>
              StrDelim(Some(key + w1 + rest)) == Delimited(Some(key), Some(rest))
  {
    EqualsForm(key, w1, w2, rest);
    if |w1| > 0 && (rest == [] || rest[0] != '=') {
      WhitespaceSeparator(key, w1, rest);
    }
  }

  lemma {:induction false} EqualsForm(key: string, w1: string, w2: string, rest: string)
    requires NoDelimiter(key) && AllWhitespace(w1) && AllWhitespace(w2)
    requires rest == [] || !IsWhitespace(rest[0])
    ensures StrDelim(Some(key + w1 + "=" + w2 + rest)) == Delimited(Some(key), Some(rest))
  {
    SpanAfterWhitespace(w2, rest);
    if |w1| == 0 {
      EqualsFirst(key, w1, w2 + rest, |w2|);
    } else {
      EqualsAfterWhitespace(key, w1, w2 + rest, |w2|);
    }
    assert (w2 + rest)[|w2|..] == rest;
    assert key + w1 + "=" + w2 + rest == key + w1 + "=" + (w2 + rest);
  }

  lemma EqualsFirst(key: string, w1: string, after: string, n: nat)
    requires NoDelimiter(key) && w1 == [] && SpanWhitespace(after) == n
    ensures StrDelim(Some(key + w1 + "=" + after)) == Delimited(Some(key), Some(after[n..]))
  {
    assert key + w1 == key;
    EqualsSeparator(key, after);
  }

  lemma EqualsAfterWhitespace(key: string, w1: string, after: string, n: nat)
    requires NoDelimiter(key) && AllWhitespace(w1) && w1 != [] && SpanWhitespace(after) == n
    ensures StrDelim(Some(key + w1 + "=" + after)) == Delimited(Some(key), Some(after[n..]))
  {
    var e := "=" + after;
    WhitespaceSeparator(key, w1, e);
    assert key + w1 + "=" + after == key + w1 + e;
    assert e[1..] == after;
  }

  /** strdelim when the keyword is followed directly by '=': whitespace after it is skipped, and nothing more. */
  lemma {:induction false} EqualsSeparator(key: string, after: string)
    requires NoDelimiter(key)
    ensures StrDelim(Some(key + "=" + after)) ==
            Delimited(Some(key), Some(after[SpanWhitespace(after)..]))
  {
    var s := key + "=" + after;
    assert s == key + ("=" + after);
    FindAfterPrefix(key, "=" + after, Delimiters);
    assert s[|key|] == '=';
    StrDelimUnquoted(s, |key|);
    assert s[..|key|] == key;
    assert s[|key| + 1..] == after;
    assert s[|key| + 1 + SpanWhitespace(after)..] == after[SpanWhitespace(after)..];
  }

  /** strdelim when the first delimiter, at `s[i]`, is whitespace or '='. */
  lemma StrDelimUnquoted(s: string, i: nat)
    requires FindFirst(s, Delimiters) == Some(i) && i < |s| && !IsQuote(s[i])
    ensures StrDelim(Some(s)) == EndUnquoted(s, i)
  {
  }

  /** strdelim when the keyword is followed by whitespace: one '=' after the whitespace is skipped as well. */
  lemma {:induction false} WhitespaceSeparator(key: string, w: string, after: string)
    requires NoDelimiter(key) && AllWhitespace(w) && w != []
    requires after == [] || !IsWhitespace(after[0])
    ensures after != [] && after[0] == '=' ==>
              StrDelim(Some(key + w + after)) ==
              Delimited(Some(key), Some(after[1..][SpanWhitespace(after[1..])..]))
    ensures after == [] || after[0] != '=' ==>
              StrDelim(Some(key + w + after)) == Delimited(Some(key), Some(after))
  {
    var s := key + w + after;
    var i, j := |key|, |key| + |w|;
    WhitespaceRun(key, w, after);
    StrDelimUnquoted(s, i);
    UnquotedAtWhitespace(s, i, j);
    if after != [] {
      assert s[j + 1..] == after[1..];
    }
  }

  /** In `key + w + after` the first delimiter is the blank run `w`, which ends where `after` begins. */
  lemma WhitespaceRun(key: string, w: string, after: string)
    requires NoDelimiter(key) && AllWhitespace(w) && w != []
    requires after == [] || !IsWhitespace(after[0])
    ensures var s, i, j := key + w + after, |key|, |key| + |w|;
            && FindFirst(s, Delimiters) == Some(i) && i < j <= |s|
            && s[..i] == key && s[j..] == after
            && IsWhitespace(s[i]) && !IsQuote(s[i])
            && (forall k :: i < k < j ==> IsWhitespace(s[k]))
            && (j == |s| || !IsWhitespace(s[j]))
  {
    ThreeParts(key, w, after);
    FindAfterPrefix(key, w + after, Delimiters);
  }

  /** Where the three parts of `a + b + c` sit. */
  lemma ThreeParts(a: string, b: string, c: string)
    ensures a + b + c == a + (b + c)
    ensures (a + b + c)[..|a|] == a
    ensures (a + b + c)[|a| + |b|..] == c
    ensures c != [] ==> (a + b + c)[|a| + |b| + 1..] == c[1..]
    ensures forall k :: |a| <= k < |a| + |b| ==> (a + b + c)[k] == b[k - |a|]
  {
  }

  /** The unquoted branch of strdelim at whitespace `s[i]` whose run ends before `s[j]`. */
  lemma UnquotedAtWhitespace(s: string, i: nat, j: nat)
    requires i < j <= |s| && IsWhitespace(s[i])
    requires forall k :: i < k < j ==> IsWhitespace(s[k])
    requires j == |s| || !IsWhitespace(s[j])
    ensures j < |s| && s[j] == '=' ==>
              EndUnquoted(s, i) == Delimited(Some(s[..i]), Some(s[j + 1..][SpanWhitespace(s[j + 1..])..]))
    ensures !(j < |s| && s[j] == '=') ==>
              EndUnquoted(s, i) == Delimited(Some(s[..i]), Some(s[j..]))
  {
    SpanAt(s[i + 1..], j - i - 1);
    if j < |s| && s[j] == '=' {
      var m := SpanWhitespace(s[j + 1..]);
      assert s[j + 1..][m..] == s[j + 1 + m..];
    }
  }

  /** strspn is the length of the whitespace run, however that run is described. */
  lemma {:induction false} SpanAt(t: string, n: nat)
    requires n <= |t|
    requires forall k :: 0 <= k < n ==> IsWhitespace(t[k])
    requires n == |t| || !IsWhitespace(t[n])
    ensures SpanWhitespace(t) == n
  {
    if n > 0 {
      assert forall k :: 0 <= k < n - 1 ==> t[1..][k] == t[k + 1];
      SpanAt(t[1..], n - 1);
    }
  }

  /** strspn stops at the first character that is not whitespace. */
  lemma {:induction false} SpanWhitespaceSpec(t: string)
    ensures forall k :: 0 <= k < SpanWhitespace(t) ==> IsWhitespace(t[k])
    ensures SpanWhitespace(t) == |t| || !IsWhitespace(t[SpanWhitespace(t)])
  {
    if t != [] && IsWhitespace(t[0]) {
      SpanWhitespaceSpec(t[1..]);
      assert forall k :: 1 <= k < |t| ==> t[k] == t[1..][k - 1];
    }
  }

  // ---------------------------------------------------------------------
  // Properties of keyword folding and classification
  // ---------------------------------------------------------------------

  predicate LowerAsciiWord(w: string) {
    forall k :: 0 <= k < |w| ==> 'a' <= w[k] <= 'z'
  }

  /** `k` spells `w` letter by letter in either case. */
  predicate SpellsIgnoringCase(k: string, w: string) {
    |k| == |w| && forall i :: 0 <= i < |k| ==> k[i] == w[i] || k[i] == ToUpper(w[i])
  }

  /** Folding a keyword yields a lower-case word exactly when the keyword spells it in any mix of cases. */
  lemma FoldsToWord(k: string, w: string)
    requires LowerAsciiWord(w)
    ensures Lower(k) == w <==> SpellsIgnoringCase(k, w)
  {
    LowerAt(k);
    if Lower(k) == w {
      forall i | 0 <= i < |k| ensures k[i] == w[i] || k[i] == ToUpper(w[i]) {
        assert ToLower(k[i]) == w[i];
      }
    }
    if SpellsIgnoringCase(k, w) {
      forall i | 0 <= i < |k| ensures Lower(k)[i] == w[i] {
        assert ToLower(k[i]) == w[i];
      }
    }
  }

  /** Keyword matching is case-insensitive: DMSAPIKEY, DmsApiKey, ... are all the api-key directive. */
  lemma KeywordCaseInsensitive(k: string)
    ensures ParseToken(Lower(k)) == ApiKey <==> SpellsIgnoringCase(k, "dmsapikey")
    ensures ParseToken(Lower(k)) == SystemName <==> SpellsIgnoringCase(k, "systemname")
  {
    FoldsToWord(k, "dmsapikey");
    FoldsToWord(k, "systemname");
  }

  // ---------------------------------------------------------------------
  // Properties of the dispatcher
  // ---------------------------------------------------------------------

  /**
   * A blank line, or one starting with whitespace or '=', has the empty
   * keyword: it is reported as a bad directive and changes nothing. No
   * trailing or leading whitespace is stripped first.
   */
  lemma LeadingDelimiterIsBad(o: Options, line: string)
    requires line != [] && IsDelimiter(line[0]) && !IsQuote(line[0])
    ensures Keyword(line) == Some("")
    ensures ProcessLine(o, line) == Processed(o, [BadDirective], 0)
  {
    FindFirstAfter(line, Delimiters, 0);
  }

  /** A line whose keyword is not recognised leaves every field unchanged and returns 0. */
  lemma UnrecognizedKeepsOptions(o: Options, line: string)
    requires Directive(line) == Bad
    ensures ProcessLine(o, line).Processed?
    ensures ProcessLine(o, line).options == o && ProcessLine(o, line).rc == 0
  {
  }

  /** The text between keyword and value: `=` with optional whitespace on either side, or whitespace alone. */
  function Separator(w1: string, w2: string, withEquals: bool): string {
    if withEquals then w1 + "=" + w2 else w1
  }

  predicate ValidSeparator(w1: string, w2: string, withEquals: bool) {
    AllWhitespace(w1) && AllWhitespace(w2) && (withEquals || |w1| > 0)
  }

  /** Whatever separator form is used, the keyword is the folded key and the argument is scanned from `rest`. */
  lemma {:induction false} SeparatorLine(key: string, w1: string, w2: string, withEquals: bool, rest: string)
    requires NoDelimiter(key) && ValidSeparator(w1, w2, withEquals)
    requires rest != [] && !IsWhitespace(rest[0]) && rest[0] != '='
    ensures Keyword(key + Separator(w1, w2, withEquals) + rest) == Some(Lower(key))
    ensures Argument(key + Separator(w1, w2, withEquals) + rest) == StrDelim(Some(rest)).token
  {
    var line := key + Separator(w1, w2, withEquals) + rest;
    SeparatorScan(key, w1, w2, withEquals, rest);
    assert line != [];
  }

  lemma EqualsRegroup(key: string, w1: string, w2: string, rest: string)
    ensures key + Separator(w1, w2, true) + rest == key + w1 + "=" + w2 + rest
  {
  }

  lemma {:induction false} SeparatorScan(key: string, w1: string, w2: string, withEquals: bool, rest: string)
    requires NoDelimiter(key) && ValidSeparator(w1, w2, withEquals)
    requires rest == [] || (!IsWhitespace(rest[0]) && rest[0] != '=')
    ensures StrDelim(Some(key + Separator(w1, w2, withEquals) + rest)) == Delimited(Some(key), Some(rest))
  {
    if withEquals {
      EqualsForm(key, w1, w2, rest);
      EqualsRegroup(key, w1, w2, rest);
    } else {
      WhitespaceSeparator(key, w1, rest);
    }
  }

  /** `key<sep>value` with a bare value: the argument is the value, with any trailing whitespace dropped. */
  lemma {:induction false} BareDirective(key: string, w1: string, w2: string, withEquals: bool,
                                         value: string, tail: string)
    requires NoDelimiter(key) && ValidSeparator(w1, w2, withEquals)
    requires NoDelimiter(value) && value != [] && AllWhitespace(tail)
    ensures Keyword(key + Separator(w1, w2, withEquals) + value + tail) == Some(Lower(key))
    ensures Argument(key + Separator(w1, w2, withEquals) + value + tail) == Some(value)
  {
    var bare := value + tail;
    SeparatorLine(key, w1, w2, withEquals, bare);
    assert key + Separator(w1, w2, withEquals) + value + tail == key + Separator(w1, w2, withEquals) + bare;
    if tail == [] {
      assert bare == value;
      NoDelimiterExhausts(value);
    } else {
      FindAfterPrefix(value, tail, Delimiters);
      assert bare[..|value|] == value;
    }
  }

  /**
   * `key<sep>"text"`: the argument is the quoted text verbatim, spaces
   * included, whatever follows the closing quote.
   */
  lemma {:induction false} QuotedDirective(key: string, w1: string, w2: string, withEquals: bool,
                                           q: string, tail: string)
    requires NoDelimiter(key) && ValidSeparator(w1, w2, withEquals)
    requires forall k :: 0 <= k < |q| ==> !IsQuote(q[k])
    ensures Keyword(key + Separator(w1, w2, withEquals) + "\"" + q + "\"" + tail) == Some(Lower(key))
    ensures Argument(key + Separator(w1, w2, withEquals) + "\"" + q + "\"" + tail) == Some(q)
  {
    var quoted := "\"" + q + "\"" + tail;
    SeparatorLine(key, w1, w2, withEquals, quoted);
    QuotedRegroup(key + Separator(w1, w2, withEquals), q, tail);
    QuotedArgument(q, tail);
  }

  lemma QuotedRegroup(head: string, q: string, tail: string)
    ensures head + "\"" + q + "\"" + tail == head + ("\"" + q + "\"" + tail)
  {
  }

  lemma QuotedArgument(q: string, tail: string)
    requires forall k :: 0 <= k < |q| ==> !IsQuote(q[k])
    ensures StrDelim(Some("\"" + q + "\"" + tail)).token == Some(q)
  {
    QuotedBeforeTail([], q, tail);
    assert [] + "\"" + q + "\"" + tail == "\"" + q + "\"" + tail;
    assert [] + q == q;
  }

  /** process_config_line depends on a line only through its keyword and its argument. */
  lemma SameTokensSameEffect(o: Options, l1: string, l2: string)
    requires Keyword(l1) == Keyword(l2) && Argument(l1) == Argument(l2)
    ensures ProcessLine(o, l1) == ProcessLine(o, l2)
  {
  }

  /**
   * `key value`, `key=value`, `key = "value"`, ...: spacing, the optional '='
   * and quoting do not change what a directive line does.
   */
  lemma {:induction false} LineFormsAgree(o: Options, key: string, value: string,
                                          w1: string, w2: string, withEquals: bool, tail: string,
                                          v1: string, v2: string, quotedWithEquals: bool, qtail: string)
    requires NoDelimiter(key) && NoDelimiter(value) && value != []
    requires ValidSeparator(w1, w2, withEquals) && AllWhitespace(tail)
    requires ValidSeparator(v1, v2, quotedWithEquals)
    ensures ProcessLine(o, key + Separator(w1, w2, withEquals) + value + tail)
         == ProcessLine(o, key + Separator(v1, v2, quotedWithEquals) + "\"" + value + "\"" + qtail)
  {
    BareDirective(key, w1, w2, withEquals, value, tail);
    QuotedDirective(key, v1, v2, quotedWithEquals, value, qtail);
    SameTokensSameEffect(o, key + Separator(w1, w2, withEquals) + value + tail,
                         key + Separator(v1, v2, quotedWithEquals) + "\"" + value + "\"" + qtail);
  }

  /** A recognised directive with an empty argument stores the empty string rather than leaving the field unset. */
  lemma EmptyArgumentStored(o: Options, line: string)
    requires Directive(line) != Bad && Argument(line) == Some("")
    ensures var r := ProcessLine(o, line);
            r.Processed? && Field(r.options, Directive(line)) == Some("") &&
            r.notices == [Notice(Directive(line))]
  {
  }

  /** `key = = value` absorbs only the first '=': the argument is the empty token before the second. */
  lemma {:induction false} SecondEqualsNotAbsorbed(key: string, w1: string, w2: string, more: string)
    requires NoDelimiter(key) && AllWhitespace(w1) && AllWhitespace(w2)
    ensures Argument(key + w1 + "=" + w2 + "=" + more) == Some("")
  {
    SeparatorAbsorbed(key, w1, w2, "=" + more);
    assert key + w1 + "=" + w2 + "=" + more == key + w1 + "=" + w2 + ("=" + more);
    FindFirstAfter("=" + more, Delimiters, 0);
  }

  // ---------------------------------------------------------------------
  // Properties of the reading loop
  // ---------------------------------------------------------------------

  /** The fgets buffers, concatenated, are the whole file. */
  lemma {:induction false} FgetsCoversFile(s: string)
    ensures Concat(Fgets(s)) == s
    decreases |s|
  {
    if s != [] {
      var n := FgetsLength(s);
      FgetsStep(s);
      FgetsCoversFile(s[n..]);
      ConcatCons(s[..n], Fgets(s[n..]));
      assert s[..n] + s[n..] == s;
    }
  }

  lemma ConcatCons(line: string, lines: seq<string>)
    ensures Concat([line] + lines) == line + Concat(lines)
  {
    assert ([line] + lines)[1..] == lines;
  }

  lemma AppendAssoc<T>(a: seq<T>, b: seq<T>, c: seq<T>)
    ensures a + (b + c) == a + b + c
  {
  }

  lemma StepAborts(st: FoldState, line: string, index: nat)
    requires st.Running? && ProcessLine(st.options, CString(line)).NullArgument?
    ensures Step(st, line, index) == Aborted(index)
  {
  }

  lemma StepProcessed(st: FoldState, line: string, index: nat)
    requires st.Running? && ProcessLine(st.options, CString(line)).Processed?
    ensures var r := ProcessLine(st.options, CString(line));
            Step(st, line, index) ==
            Running(r.options, st.log + (if |CString(line)| == LineBufferSize - 1 then [LineTooLong] else [])
                               + r.notices + (if r.rc != 0 then [BadConfiguration] else []))
  {
  }

  /** One fgets call takes the first buffer of the unread text. */
  lemma FgetsStep(s: string)
    requires s != []
    ensures Fgets(s) == [s[..FgetsLength(s)]] + Fgets(s[FgetsLength(s)..])
  {
  }

  /** The loop after one more line. */
  lemma FoldSnoc(o: Options, lines: seq<string>, line: string)
    ensures FoldLines(o, lines + [line]) == Step(FoldLines(o, lines), line, |lines|)
  {
    assert (lines + [line])[..|lines|] == lines;
  }

  lemma {:induction false} FoldAborted(o: Options, lines: seq<string>, more: seq<string>)
    requires FoldLines(o, lines).Aborted?
    ensures FoldLines(o, lines + more) == FoldLines(o, lines)
    decreases |more|
  {
    if more != [] {
      var m := more[..|more| - 1];
      FoldAborted(o, lines, m);
      assert more == m + [more[|more| - 1]];
      AppendAssoc(lines, m, [more[|more| - 1]]);
      FoldSnoc(o, lines + m, more[|more| - 1]);
    } else {
      assert lines + more == lines;
    }
  }

  /** process_config_line never signals failure, so "bad configuration" never reaches the log. */
  lemma {:induction false} NeverBadConfiguration(o: Options, lines: seq<string>)
    ensures FoldLines(o, lines).Running? ==> BadConfiguration !in FoldLines(o, lines).log
    decreases |lines|
  {
    if lines != [] {
      var init := lines[..|lines| - 1];
      NeverBadConfiguration(o, init);
      StepNeverBad(FoldLines(o, init), lines[|lines| - 1], |lines| - 1);
    }
  }

  /** One iteration adds no "bad configuration" message to the log. */
  lemma StepNeverBad(st: FoldState, line: string, index: nat)
    requires st.Running? ==> BadConfiguration !in st.log
    ensures Step(st, line, index).Running? ==> BadConfiguration !in Step(st, line, index).log
  {
    if st.Running? {
      var r := ProcessLine(st.options, CString(line));
      ProcessLineSpec(st.options, CString(line));
      if r.Processed? {
        ProcessLineNotices(st.options, CString(line));
      }
    }
  }

  /** The only messages process_config_line itself prints. */
  lemma ProcessLineNotices(o: Options, line: string)
    requires ProcessLine(o, line).Processed?
    ensures BadConfiguration !in ProcessLine(o, line).notices
  {
  }

  /** How many of the lines, as the loop reads them, fill the buffer to 1023 characters. */
  function LongLines(lines: seq<string>): (n: nat)
    ensures n <= |lines|
    decreases |lines|
  {
    if lines == [] then 0
    else LongLines(lines[..|lines| - 1]) + (if |CString(lines[|lines| - 1])| == LineBufferSize - 1 then 1 else 0)
  }

  /** "line too long" is logged once for every line that fills the buffer, and never otherwise. */
  lemma {:induction false} TooLongPerLongLine(o: Options, lines: seq<string>)
    ensures FoldLines(o, lines).Running? ==>
              multiset(FoldLines(o, lines).log)[LineTooLong] == LongLines(lines)
    decreases |lines|
  {
    if lines != [] {
      var init, last := lines[..|lines| - 1], lines[|lines| - 1];
      TooLongPerLongLine(o, init);
      StepCountsLong(FoldLines(o, init), last, |init|);
    }
  }

  /** One iteration adds "line too long" exactly when its line fills the buffer. */
  lemma StepCountsLong(st: FoldState, line: string, index: nat)
    ensures var r := Step(st, line, index);
            r.Running? ==> multiset(r.log)[LineTooLong] ==
                             multiset(st.log)[LineTooLong] + (if |CString(line)| == LineBufferSize - 1 then 1 else 0)
  {
    if st.Running? {
      var r := ProcessLine(st.options, CString(line));
      if r.Processed? {
        StepProcessed(st, line, index);
        assert multiset(r.notices)[LineTooLong] == 0;
      }
    }
  }

  /**
   * read_config_file returns 1 exactly when the file cannot be opened and 0
   * whenever it was read to the end; it never logs "bad configuration".
   */
  lemma ReadConfigStatus(file: Option<string>, o: Options)
    ensures var r := ReadConfig(file, o);
            r.Finished? ==> (r.rc == 1 <==> file.None?) && (r.rc == 0 <==> file.Some?)
    ensures file.Some? && ReadConfig(file, o).Finished? ==> BadConfiguration !in ReadConfig(file, o).log
    ensures file.None? ==> ReadConfig(file, o) == Finished(1, o, [Unreadable])
  {
    if file.Some? {
      NeverBadConfiguration(o, Fgets(file.value));
    }
  }

  /** A line that is not directive `op` leaves field `op` as it was. */
  lemma SnocKeepsField(o: Options, lines: seq<string>, line: string, op: Opcode)
    requires op != Bad && Directive(CString(line)) != op
    ensures var st := FoldLines(o, lines + [line]);
            st.Running? ==> FoldLines(o, lines).Running? &&
                            Field(st.options, op) == Field(FoldLines(o, lines).options, op)
  {
    FoldSnoc(o, lines, line);
  }

  /** A line that is directive `op` sets field `op` to its argument. */
  lemma SnocSetsField(o: Options, lines: seq<string>, line: string, op: Opcode)
    requires op != Bad && Directive(CString(line)) == op
    ensures var st := FoldLines(o, lines + [line]);
            st.Running? ==> Field(st.options, op) == Argument(CString(line))
  {
    FoldSnoc(o, lines, line);
  }

  /**
   * Last occurrence wins: after a line that sets a field, the field keeps
   * that line's argument through every later line that is not the same
   * directive.
   */
  lemma {:induction false} LastDirectiveWins(o: Options, op: Opcode, pre: seq<string>, line: string, post: seq<string>)
    requires op != Bad
    requires Directive(CString(line)) == op
    requires forall l :: l in post ==> Directive(CString(l)) != op
    ensures var st := FoldLines(o, pre + [line] + post);
            st.Running? ==> Field(st.options, op) == Argument(CString(line))
    decreases |post|
  {
    if post == [] {
      SplitLast(pre + [line], post);
      SnocSetsField(o, pre, line, op);
    } else {
      var init, last := post[..|post| - 1], post[|post| - 1];
      LastDirectiveWins(o, op, pre, line, init);
      SplitLast(pre + [line], post);
      SnocKeepsField(o, pre + [line] + init, last, op);
    }
  }

  lemma SplitLast(xs: seq<string>, post: seq<string>)
    ensures post == [] ==> xs + post == xs
    ensures post != [] ==> xs + post == (xs + post[..|post| - 1]) + [post[|post| - 1]]
    ensures forall l :: l in post[..|post| - (if post == [] then 0 else 1)] ==> l in post
  {
  }
}
