/** The reader of the JSON configuration file. The specification works on the text still to be read,
    the methods on positions in the whole text. */
module ConfigJson {
  import opened Strings
  import opened Numbers

  datatype Config = Config(
    port: int,
    storageDir: string,
    maxFileSizeMb: int,
    maxConcurrentDownloads: int,
    defaultExpireMinutes: int,
    maxExpireMinutes: int)

  const DEFAULT := Config(8080, "./data", 0, 0, 10, 1440)

  const BACKSPACE := 8 as char
  const FORM_FEED := 12 as char

  /** A value read, and the text behind it. */
  datatype Read<+T> = Read(value: T, rest: string)

  /** What becomes of a configuration text. Endless: the loop stays at one place for ever. Undefined:
      a number does not fit in 64 bits, which is signed overflow. */
  datatype Outcome = Parsed(config: Config) | Endless | Undefined

  // ---- the reader as functions ----

  predicate IsBlank(c: char) { c == ' ' || c == '\t' || c == '\n' || c == '\r' }

  function SkipBlanks(t: string): (r: string)
    ensures |r| <= |t|
    ensures r != "" ==> !IsBlank(r[0])
  {
    if t != "" && IsBlank(t[0]) then SkipBlanks(t[1..]) else t
  }

  function Unescape(c: char): char {
    match c
    case 'b' => BACKSPACE
    case 'f' => FORM_FEED
    case 'n' => '\n'
    case 'r' => '\r'
    case 't' => '\t'
    case _ => c
  }

  /** The characters up to the closing quote. A unicode escape stands for nothing. */
  function ReadChars(t: string): (r: Read<string>)
    ensures |r.rest| <= |t|
    decreases |t|
  {
    if t == "" then Read("", "")
    else if t[0] == '"' then Read("", t[1..])
    else if t[0] != '\\' then var r := ReadChars(t[1..]); Read([t[0]] + r.value, r.rest)
    else if |t| == 1 then Read("", "")
    else if t[1] == 'u' then ReadChars(if |t| > 5 then t[6..] else t[2..])
    else var r := ReadChars(t[2..]); Read([Unescape(t[1])] + r.value, r.rest)
  }

  function ReadString(t: string): (r: Read<string>)
    ensures |r.rest| <= |t|
  {
    if t == "" || t[0] != '"' then Read("", t) else ReadChars(t[1..])
  }

  /** The digits at the start of the text, taken into the number read so far. */
  function ReadDigits(n: nat, t: string): (r: Read<nat>)
    ensures |r.rest| <= |t|
    decreases |t|
  {
    if t != "" && IsDigit(t[0]) then ReadDigits(10 * n + (t[0] as int - '0' as int), t[1..]) else Read(n, t)
  }

  /** None when a digit too many makes the 64-bit number overflow. */
  function Signed(negative: bool, n: nat): Option<int> {
    var value: int := n;
    if value > INT64_MAX then None else Some(if negative then -value else value)
  }

  function ReadNumber(t: string): (r: Read<Option<int>>)
    ensures |r.rest| <= |t|
  {
    var u := SkipBlanks(t);
    var negative := u != "" && u[0] == '-';
    var digits := ReadDigits(0, if negative then u[1..] else u);
    Read(Signed(negative, digits.value), digits.rest)
  }

  function ToUint16(n: int): int { n % 0x1_0000 }

  function ToInt32(n: int): int { (n + 0x8000_0000) % 0x1_0000_0000 - 0x8000_0000 }

  function ToSize(n: int): int { n % 0x1_0000_0000_0000_0000 }

  predicate IsNumberKey(key: string) {
    key == "port" || key == "max_file_size_mb" || key == "max_concurrent_downloads"
    || key == "default_expire_minutes" || key == "max_expire_minutes"
  }

  /** A number stored under its key; the cast to the field's type wraps around. */
  function SetNumber(c: Config, key: string, n: int): Config {
    if key == "port" then c.(port := ToUint16(n))
    else if key == "max_file_size_mb" then c.(maxFileSizeMb := ToSize(n))
    else if key == "max_concurrent_downloads" then c.(maxConcurrentDownloads := ToInt32(n))
    else if key == "default_expire_minutes" then c.(defaultExpireMinutes := ToInt32(n))
    else if key == "max_expire_minutes" then c.(maxExpireMinutes := ToInt32(n))
    else c
  }

  function ReadValue(t: string, key: string, c: Config): (r: Read<Option<Config>>)
    ensures |r.rest| <= |t|
  {
    var u := SkipBlanks(t);
    if u == "" then Read(Some(c), u)
    else if key == "storage_dir" then
      var s := ReadString(u);
      Read(Some(c.(storageDir := s.value)), s.rest)
    else if !IsNumberKey(key) && u[0] == '"' then Read(Some(c), ReadString(u).rest)
    else
      var n := ReadNumber(u);
      Read(match n.value case None => None case Some(x) => Some(SetNumber(c, key, x)), n.rest)
  }

  function SkipColon(t: string): (r: string)
    ensures |r| <= |t|
  {
    if t != "" && t[0] == ':' then t[1..] else t
  }

  /** A key, a colon if there is one, and a value. */
  function ReadField(t: string, c: Config): (r: Read<Option<Config>>)
    ensures |r.rest| <= |t|
  {
    var key := ReadString(t);
    var v := ReadValue(SkipBlanks(SkipColon(SkipBlanks(key.rest))), key.value, c);
    Read(v.value, SkipBlanks(v.rest))
  }

  function ParseFields(t: string, c: Config): Outcome
    decreases |t|
  {
    var u := SkipBlanks(t);
    if u == "" || u[0] == '}' then Parsed(c)
    else if u[0] == ',' then ParseFields(u[1..], c)
    else
      var r := ReadField(u, c);
      if r.value.None? then Undefined
      else if |r.rest| == |t| then Endless
      else ParseFields(r.rest, r.value.value)
  }

  function ParseConfig(t: string): Outcome {
    var u := SkipBlanks(t);
    if u == "" || u[0] != '{' then Parsed(DEFAULT) else ParseFields(u[1..], DEFAULT)
  }

  // ---- the reader as it runs ----

  function From(s: string, i: nat): string
    requires i <= |s|
  {
    s[i..]
  }

  /** One step through the text. */
  lemma FromStep(s: string, i: nat)
    requires i <= |s|
    ensures i < |s| ==> From(s, i) != "" && From(s, i)[0] == s[i] && From(s, i)[1..] == From(s, i + 1)
    ensures i == |s| ==> From(s, i) == ""
  {
  }

  method SkipWhitespace(s: string, from: nat) returns (pos: nat)
    requires from <= |s|
    ensures from <= pos <= |s| && From(s, pos) == SkipBlanks(From(s, from))
  {
    hide From;
    pos := from;
    FromStep(s, pos);
    while pos < |s| && (s[pos] == ' ' || s[pos] == '\t' || s[pos] == '\n' || s[pos] == '\r')
      invariant from <= pos <= |s|
      invariant SkipBlanks(From(s, pos)) == SkipBlanks(From(s, from))
    {
      FromStep(s, pos);
      pos := pos + 1;
    }
    FromStep(s, pos);
  }

  function Prepend(before: string, r: Read<string>): Read<string> {
    Read(before + r.value, r.rest)
  }

  lemma PrependTwice(a: string, b: string, r: Read<string>)
    ensures Prepend("", r) == r
    ensures Prepend(a, Prepend(b, r)) == Prepend(a + b, r)
    ensures Prepend(a, Read("", r.rest)) == Read(a, r.rest)
  {
    Assoc(a, b, r.value);
    assert "" + r.value == r.value && a + "" == a;
  }

  /** One step of reading characters, by position. */
  lemma ReadCharsAt(s: string, i: nat)
    requires i <= |s|
    ensures i == |s| || (s[i] == '\\' && i + 1 == |s|) ==> ReadChars(From(s, i)) == Read("", From(s, |s|))
    ensures i < |s| && s[i] == '"' ==> ReadChars(From(s, i)) == Read("", From(s, i + 1))
    ensures i < |s| && s[i] != '"' && s[i] != '\\' ==>
              ReadChars(From(s, i)) == Prepend([s[i]], ReadChars(From(s, i + 1)))
    ensures i + 1 < |s| && s[i] == '\\' && s[i + 1] == 'u'
            ==> ReadChars(From(s, i)) == ReadChars(From(s, if i + 5 < |s| then i + 6 else i + 2))
    ensures i + 1 < |s| && s[i] == '\\' && s[i + 1] != 'u'
            ==> ReadChars(From(s, i)) == Prepend([Unescape(s[i + 1])], ReadChars(From(s, i + 2)))
  {
  }

  method ParseJsonString(s: string, from: nat) returns (value: string, pos: nat)
    requires from <= |s|
    ensures from <= pos <= |s| && Read(value, From(s, pos)) == ReadString(From(s, from))
  {
    hide ReadChars, Prepend, From, Unescape;
    value, pos := "", from;
    FromStep(s, pos);
    if pos >= |s| || s[pos] != '"' { return; }
    pos := pos + 1;
    PrependTwice("", "", ReadChars(From(s, pos)));
    while pos < |s| && s[pos] != '"'
      invariant from < pos <= |s|
      invariant Prepend(value, ReadChars(From(s, pos))) == ReadChars(From(s, from + 1))
    {
      ReadCharsAt(s, pos);
      if s[pos] == '\\' {
        pos := pos + 1;
        if pos >= |s| {
          PrependTwice(value, "", Read("", From(s, pos)));
          return;
        }
        if s[pos] == 'u' {
          if pos + 4 < |s| { pos := pos + 4; }
        } else {
          PrependTwice(value, [Unescape(s[pos])], ReadChars(From(s, pos + 1)));
          value := value + [Unescape(s[pos])];
        }
      } else {
        PrependTwice(value, [s[pos]], ReadChars(From(s, pos + 1)));
        value := value + [s[pos]];
      }
      pos := pos + 1;
    }
    ReadCharsAt(s, pos);
    if pos < |s| && s[pos] == '"' { pos := pos + 1; }
    PrependTwice(value, "", Read("", From(s, pos)));
  }

  method ParseJsonNumber(s: string, from: nat) returns (value: Option<int>, pos: nat)
    requires from <= |s|
    ensures from <= pos <= |s| && Read(value, From(s, pos)) == ReadNumber(From(s, from))
  {
    hide From, SkipBlanks;
    pos := SkipWhitespace(s, from);
    var n: nat := 0;
    var negative := false;
    FromStep(s, pos);
    if pos < |s| && s[pos] == '-' {
      negative := true;
      pos := pos + 1;
    }
    ghost var start := pos;
    while pos < |s| && '0' <= s[pos] <= '9'
      invariant start <= pos <= |s|
      invariant ReadDigits(n, From(s, pos)) == ReadDigits(0, From(s, start))
    {
      FromStep(s, pos);
      n := n * 10 + (s[pos] as int - '0' as int);
      pos := pos + 1;
    }
    FromStep(s, pos);
    value := Signed(negative, n);
  }

  method ParseJsonValue(s: string, from: nat, key: string, c: Config) returns (r: Option<Config>, pos: nat)
    requires from <= |s|
    ensures from <= pos <= |s| && Read(r, From(s, pos)) == ReadValue(From(s, from), key, c)
  {
    hide From, SkipBlanks, ReadString, ReadNumber, SetNumber;
    pos := SkipWhitespace(s, from);
    FromStep(s, pos);
    r := Some(c);
    if pos >= |s| { return; }
    var n: Option<int>;
    if key == "storage_dir" {
      var dir;
      dir, pos := ParseJsonString(s, pos);
      r := Some(c.(storageDir := dir));
    } else if !IsNumberKey(key) && s[pos] == '"' {
      var skipped;
      skipped, pos := ParseJsonString(s, pos);
    } else {
      n, pos := ParseJsonNumber(s, pos);
      r := match n case None => None case Some(x) => Some(SetNumber(c, key, x));
    }
  }

  /** The loop stops at Endless where the C++ loop would go round for ever. */
  method ParseConfigJson(json: string) returns (r: Outcome)
    ensures r == ParseConfig(json)
  {
    hide From, SkipBlanks, ReadField, ReadValue, ReadString;
    WholeText(json);
    var c := DEFAULT;
    var pos := SkipWhitespace(json, 0);
    FromStep(json, pos);
    if pos >= |json| || json[pos] != '{' { return Parsed(c); }
    pos := pos + 1;
    ghost var first := pos;
    while pos < |json|
      invariant first <= pos <= |json|
      invariant ParseFields(From(json, pos), c) == ParseFields(From(json, first), DEFAULT)
      decreases |json| - pos
    {
      var head := pos;
      pos := SkipWhitespace(json, pos);
      FromStep(json, pos);
      if pos >= |json| || json[pos] == '}' { return Parsed(c); }
      if json[pos] == ',' {
        pos := pos + 1;
        continue;
      }
      var field;
      field, pos := ParseField(json, pos, c);
      if field.None? { return Undefined; }
      if pos == head { return Endless; }
      c := field.value;
    }
    FromStep(json, pos);
    return Parsed(c);
  }

  method ParseField(s: string, from: nat, c: Config) returns (r: Option<Config>, pos: nat)
    requires from <= |s|
    ensures from <= pos <= |s| && Read(r, From(s, pos)) == ReadField(From(s, from), c)
  {
    hide From, SkipBlanks, ReadValue, ReadString;
    var key;
    key, pos := ParseJsonString(s, from);
    pos := SkipWhitespace(s, pos);
    FromStep(s, pos);
    if pos < |s| && s[pos] == ':' { pos := pos + 1; }
    pos := SkipWhitespace(s, pos);
    r, pos := ParseJsonValue(s, pos, key, c);
    pos := SkipWhitespace(s, pos);
  }

  lemma WholeText(s: string)
    ensures From(s, 0) == s && forall i :: 0 <= i <= |s| ==> |From(s, i)| == |s| - i
  {
  }

  // ---- exactly when the loop never ends ----

  predicate IsPunctuation(c: char) { c == ',' || c == ':' || c == '-' }

  /** Whether a character that starts no token the reader knows comes up outside strings, before the
      first closing brace and the end of the text. */
  predicate MeetsBareWord(t: string)
    decreases |t|
  {
    if t == "" || t[0] == '}' then false
    else if t[0] == '"' then MeetsBareWord(ReadChars(t[1..]).rest)
    else if IsBlank(t[0]) || IsPunctuation(t[0]) || IsDigit(t[0]) then MeetsBareWord(t[1..])
    else true
  }

  lemma {:induction false} BlanksAreNotBare(t: string)
    ensures MeetsBareWord(SkipBlanks(t)) == MeetsBareWord(t)
  {
    if t != "" && IsBlank(t[0]) { BlanksAreNotBare(t[1..]); }
  }

  lemma {:induction false} DigitsAreNotBare(n: nat, t: string)
    ensures MeetsBareWord(ReadDigits(n, t).rest) == MeetsBareWord(t)
    ensures ReadDigits(n, t).rest == t <==> t == "" || !IsDigit(t[0])
    decreases |t|
  {
    if t != "" && IsDigit(t[0]) { DigitsAreNotBare(10 * n + (t[0] as int - '0' as int), t[1..]); }
  }

  lemma NumberIsNotBare(t: string)
    ensures MeetsBareWord(ReadNumber(t).rest) == MeetsBareWord(t)
    ensures t == "" || !(IsBlank(t[0]) || t[0] == '-' || IsDigit(t[0])) ==> ReadNumber(t) == Read(Some(0), t)
    ensures t != "" && (t[0] == '-' || IsDigit(t[0])) ==> |ReadNumber(t).rest| < |t|
  {
    BlanksAreNotBare(t);
    var u := SkipBlanks(t);
    DigitsAreNotBare(0, if u != "" && u[0] == '-' then u[1..] else u);
  }

  lemma ValueIsNotBare(t: string, key: string, c: Config)
    ensures MeetsBareWord(ReadValue(t, key, c).rest) == MeetsBareWord(t)
  {
    BlanksAreNotBare(t);
    NumberIsNotBare(SkipBlanks(t));
    hide SkipBlanks, ReadNumber, SetNumber, ReadChars;
  }

  lemma FieldIsNotBare(t: string, c: Config)
    ensures MeetsBareWord(ReadField(t, c).rest) == MeetsBareWord(t)
  {
    var key := ReadString(t);
    var a := SkipColon(SkipBlanks(key.rest));
    BlanksAreNotBare(key.rest);
    BlanksAreNotBare(a);
    ValueIsNotBare(SkipBlanks(a), key.value, c);
    BlanksAreNotBare(ReadValue(SkipBlanks(a), key.value, c).rest);
    hide SkipBlanks, ReadValue, ReadChars;
  }

  /** A field that ends where it began is an unknown character: it changes nothing, so the next round
      of the loop is the same again. */
  lemma Stuck(t: string, c: Config)
    requires t != "" && !IsBlank(t[0])
    ensures |ReadField(t, c).rest| == |t|
            <==> t[0] != '"' && t[0] != ':' && t[0] != '-' && !IsDigit(t[0])
    ensures |ReadField(t, c).rest| == |t| ==> ReadField(t, c) == Read(Some(c), t)
  {
  }

  // ---- exactly when a number overflows ----

  /** Whether a run of digits outside strings, before the first closing brace and before any bare word,
      spells a number beyond 64 bits. */
  predicate MeetsBigNumber(t: string)
    decreases |t|
  {
    if t == "" || t[0] == '}' then false
    else if t[0] == '"' then MeetsBigNumber(ReadChars(t[1..]).rest)
    else if IsDigit(t[0]) then
      var digits := DigitPrefix(t);
      Value(digits) > INT64_MAX || MeetsBigNumber(t[|digits|..])
    else if IsBlank(t[0]) || IsPunctuation(t[0]) then MeetsBigNumber(t[1..])
    else false
  }

  lemma {:induction false} BlanksAreNotBig(t: string)
    ensures MeetsBigNumber(SkipBlanks(t)) == MeetsBigNumber(t)
  {
    if t != "" && IsBlank(t[0]) { BlanksAreNotBig(t[1..]); }
  }

  /** Reading digits one by one reads the run they form. */
  lemma DigitRun(t: string)
    ensures ReadDigits(0, t) == Read(Value(DigitPrefix(t)), t[|DigitPrefix(t)|..])
  {
    var digits := DigitPrefix(t);
    var rest := t[|digits|..];
    assert t == digits + rest;
    DigitsValue(digits);
    DigitsOver(0, digits, rest);
    NoDigitLeft(Value(digits), rest);
  }

  /** A read that fails met a big number; one that succeeds leaves the question to the rest. */
  ghost predicate BigOrRest<T>(t: string, value: Option<T>, rest: string) {
    if value.None? then MeetsBigNumber(t) else MeetsBigNumber(rest) == MeetsBigNumber(t)
  }

  lemma NumberBigOrRest(t: string)
    ensures BigOrRest(t, ReadNumber(t).value, ReadNumber(t).rest)
  {
    BlanksAreNotBig(t);
    var u := SkipBlanks(t);
    var v := if u != "" && u[0] == '-' then u[1..] else u;
    DigitRun(v);
    assert v == "" || !IsDigit(v[0]) ==> DigitPrefix(v) == "" && Value(DigitPrefix(v)) == 0 && v[0..] == v;
    hide SkipBlanks, DigitPrefix, Value, ReadDigits;
    assert MeetsBigNumber(u) == MeetsBigNumber(v);
  }

  lemma ValueBigOrRest(t: string, key: string, c: Config)
    ensures BigOrRest(t, ReadValue(t, key, c).value, ReadValue(t, key, c).rest)
  {
    BlanksAreNotBig(t);
    NumberBigOrRest(SkipBlanks(t));
    hide SkipBlanks, ReadNumber, SetNumber, ReadChars;
  }

  lemma FieldBigOrRest(t: string, c: Config)
    ensures BigOrRest(t, ReadField(t, c).value, ReadField(t, c).rest)
  {
    var key := ReadString(t);
    var a := SkipColon(SkipBlanks(key.rest));
    BlanksAreNotBig(key.rest);
    BlanksAreNotBig(a);
    ValueBigOrRest(SkipBlanks(a), key.value, c);
    BlanksAreNotBig(ReadValue(SkipBlanks(a), key.value, c).rest);
    hide SkipBlanks, ReadValue, ReadChars;
  }

  /** What becomes of a text, from its characters alone: a number overflows exactly when a big one comes up
      first, the loop goes round for ever exactly when a bare word does, and else a configuration is
      read. */
  lemma {:induction false} OutcomeIff(t: string, c: Config)
    ensures ParseFields(t, c) == Undefined <==> MeetsBigNumber(t)
    ensures ParseFields(t, c) == Endless <==> !MeetsBigNumber(t) && MeetsBareWord(t)
    decreases |t|
  {
    var u := SkipBlanks(t);
    BlanksAreNotBare(t);
    BlanksAreNotBig(t);
    hide SkipBlanks, ReadField, ReadChars, DigitPrefix, Value;
    if u == "" || u[0] == '}' {
    } else if u[0] == ',' {
      OutcomeIff(u[1..], c);
    } else {
      var r := ReadField(u, c);
      FieldIsNotBare(u, c);
      FieldBigOrRest(u, c);
      Stuck(u, c);
      if r.value.Some? && |r.rest| < |t| { OutcomeIff(r.rest, r.value.value); }
    }
  }

  // ---- the written form ----

  datatype Json = Text(text: string) | Number(n: int)
  datatype Field = Field(key: string, value: Json)

  /** A control character without a short escape. */
  predicate IsControl(c: char) {
    c < ' ' && c !in {BACKSPACE, FORM_FEED, '\n', '\r', '\t'}
  }

  /** The least escape that section 7 of RFC 8259 asks for. */
  function Escape(c: char): string {
    if c == '"' || c == '\\' then ['\\', c]
    else if c == BACKSPACE then "\\b"
    else if c == FORM_FEED then "\\f"
    else if c == '\n' then "\\n"
    else if c == '\r' then "\\r"
    else if c == '\t' then "\\t"
    else if IsControl(c) then "\\u00" + [HexDigit(c as int / 16), HexDigit(c as int % 16)]
    else [c]
  }

  /** What the reader makes of a written string: it drops the characters that only \u can write. */
  function Kept(s: string): string {
    if s == "" then "" else (if IsControl(s[0]) then "" else [s[0]]) + Kept(s[1..])
  }

  lemma {:induction false} KeptIff(s: string)
    ensures |Kept(s)| <= |s| && (Kept(s) == s <==> forall c <- s :: !IsControl(c))
  {
    hide IsControl;
    if s != "" {
      KeptIff(s[1..]);
      assert s == [s[0]] + s[1..];
      if !IsControl(s[0]) { assert Kept(s)[1..] == Kept(s[1..]); }
    }
  }

  function EscapeAll(s: string): string {
    if s == "" then "" else Escape(s[0]) + EscapeAll(s[1..])
  }

  function Quote(s: string): string { "\"" + EscapeAll(s) + "\"" }

  function Show(v: Json): string {
    match v
    case Text(s) => Quote(s)
    case Number(n) => if n < 0 then "-" + Decimal(-n) else Decimal(n)
  }

  predicate Blanks(gap: string) { forall i :: 0 <= i < |gap| ==> IsBlank(gap[i]) }

  function FieldText(f: Field, gap: string, rest: string): string {
    Quote(f.key) + (gap + (":" + (gap + (Show(f.value) + (gap + rest)))))
  }

  function Members(fields: seq<Field>, gap: string, rest: string): string
    decreases |fields|, 0
  {
    if fields == [] then "}" + rest
    else FieldText(fields[0], gap, AfterField(fields[1..], gap, rest))
  }

  function AfterField(fields: seq<Field>, gap: string, rest: string): string
    decreases |fields|, 1
  {
    if fields == [] then "}" + rest else "," + (gap + Members(fields, gap, rest))
  }

  /** A flat object as section 4 of RFC 8259 writes it, with white space `gap` between the tokens. */
  function Print(fields: seq<Field>, gap: string, rest: string): string {
    "{" + (gap + Members(fields, gap, rest))
  }

  /** A known key has a value of its own kind. */
  predicate WellTyped(f: Field) {
    (Kept(f.key) == "storage_dir" ==> f.value.Text?) && (IsNumberKey(Kept(f.key)) ==> f.value.Number?)
  }

  predicate Fits(f: Field) { f.value.Number? ==> -INT64_MAX <= f.value.n <= INT64_MAX }

  /** What a field, as it is read, means for the configuration. */
  function Assign(c: Config, f: Field): Config {
    match f.value
    case Text(s) => if Kept(f.key) == "storage_dir" then c.(storageDir := Kept(s)) else c
    case Number(n) => SetNumber(c, Kept(f.key), n)
  }

  function AssignAll(c: Config, fields: seq<Field>): Outcome
    decreases |fields|
  {
    if fields == [] then Parsed(c)
    else if !Fits(fields[0]) then Undefined
    else AssignAll(Assign(c, fields[0]), fields[1..])
  }

  lemma {:induction false} EscapedRead(s: string, rest: string)
    ensures ReadChars(EscapeAll(s) + ("\"" + rest)) == Read(Kept(s), rest)
  {
    hide IsControl;
    if s == "" {
      assert "" + ("\"" + rest) == "\"" + rest;
      assert ("\"" + rest)[1..] == rest;
    } else {
      EscapedRead(s[1..], rest);
      EscapeRead(s[0], EscapeAll(s[1..]) + ("\"" + rest));
      Assoc(Escape(s[0]), EscapeAll(s[1..]), "\"" + rest);
    }
  }

  lemma EscapeRead(c: char, u: string)
    ensures ReadChars(Escape(c) + u) == Prepend(if IsControl(c) then "" else [c], ReadChars(u))
  {
    var e := Escape(c);
    if IsControl(c) {
      assert |e| == 6 && e[0] == '\\' && e[1] == 'u';
      hide Escape, IsControl;
      assert (e + u)[6..] == u && (e + u)[0] == e[0] && (e + u)[1] == e[1];
      assert "" + ReadChars(u).value == ReadChars(u).value;
    } else if |e| == 1 {
      assert e == [c] && c != '"' && c != '\\';
      hide Escape;
      assert (e + u)[1..] == u;
    } else {
      assert e == ['\\', e[1]] && e[1] != 'u' && Unescape(e[1]) == c;
      hide Escape, Unescape;
      assert (e + u)[2..] == u && (e + u)[1] == e[1];
    }
  }

  lemma QuotedRead(s: string, rest: string)
    ensures Quote(s) + rest != "" && (Quote(s) + rest)[0] == '"'
    ensures ReadString(Quote(s) + rest) == Read(Kept(s), rest)
  {
    EscapedRead(s, rest);
    assert (Quote(s) + rest)[1..] == EscapeAll(s) + ("\"" + rest);
    hide ReadChars, EscapeAll;
  }

  lemma {:induction false} DigitsOver(k: nat, a: string, b: string)
    requires AllDigits(a)
    ensures ReadDigits(k, a + b) == ReadDigits(ReadDigits(k, a).value, b)
    decreases |a|
  {
    if a == "" {
      assert a + b == b;
    } else {
      assert (a + b)[1..] == a[1..] + b;
      DigitsOver(10 * k + (a[0] as int - '0' as int), a[1..], b);
    }
  }

  lemma {:induction false} DigitsValue(a: string)
    requires AllDigits(a)
    ensures ReadDigits(0, a).value == Value(a)
    decreases |a|
  {
    if a != "" {
      var most, last := a[..|a| - 1], [a[|a| - 1]];
      DigitsValue(most);
      DigitsOver(0, most, last);
      assert most + last == a;
      assert ReadDigits(Value(most), last) == ReadDigits(10 * Value(most) + (last[0] as int - '0' as int), last[1..]);
    }
  }

  predicate StartsNoDigit(t: string) { t == "" || !IsDigit(t[0]) }

  lemma DecimalRead(n: nat, rest: string)
    requires StartsNoDigit(rest)
    ensures ReadDigits(0, Decimal(n) + rest) == Read(n, rest)
  {
    ValueOfDecimal(n);
    DigitsValue(Decimal(n));
    DigitsOver(0, Decimal(n), rest);
    NoDigitLeft(n, rest);
    hide Decimal, ReadDigits, Value;
  }

  lemma NumberRead(n: int, rest: string)
    requires StartsNoDigit(rest)
    ensures ReadNumber(Show(Number(n)) + rest)
            == Read(if -INT64_MAX <= n <= INT64_MAX then Some(n) else None, rest)
    ensures (Show(Number(n)) + rest)[0] != '"' && !IsBlank((Show(Number(n)) + rest)[0])
  {
    var digits := Decimal(if n < 0 then -n else n);
    DecimalRead(if n < 0 then -n else n, rest);
    hide Decimal, ReadDigits;
    assert IsDigit(digits[0]);
    var t := Show(Number(n)) + rest;
    if n < 0 {
      Assoc("-", digits, rest);
      assert t[1..] == digits + rest;
    } else {
      assert t[0] == digits[0];
    }
  }

  lemma NoDigitLeft(k: nat, rest: string)
    requires StartsNoDigit(rest)
    ensures ReadDigits(k, rest) == Read(k, rest)
  {
  }

  lemma {:induction false} BlanksRead(gap: string, rest: string)
    requires Blanks(gap) && rest != "" && !IsBlank(rest[0])
    ensures SkipBlanks(gap + rest) == rest
  {
    if gap == "" {
      assert gap + rest == rest;
    } else {
      assert (gap + rest)[1..] == gap[1..] + rest;
      BlanksRead(gap[1..], rest);
    }
  }

  lemma ValueRead(f: Field, rest: string, c: Config)
    requires WellTyped(f) && StartsNoDigit(rest)
    ensures var t := Show(f.value) + rest;
            && t != "" && !IsBlank(t[0]) && t[0] != ':'
            && ReadValue(t, Kept(f.key), c) == Read(if Fits(f) then Some(Assign(c, f)) else None, rest)
  {
    hide ReadString, ReadNumber, SetNumber;
    match f.value
    case Text(s) => QuotedRead(s, rest);
    case Number(n) =>
      NumberRead(n, rest);
      hide Show;
  }

  lemma FieldRead(f: Field, gap: string, rest: string, c: Config)
    requires WellTyped(f) && Blanks(gap) && rest != "" && (rest[0] == ',' || rest[0] == '}')
    ensures var t := FieldText(f, gap, rest);
            && t != "" && t[0] == '"'
            && ReadField(t, c) == Read(if Fits(f) then Some(Assign(c, f)) else None, rest)
  {
    var after := Show(f.value) + (gap + rest);
    QuotedRead(f.key, gap + (":" + (gap + after)));
    BlanksRead(gap, ":" + (gap + after));
    assert SkipColon(":" + (gap + after)) == gap + after;
    assert StartsNoDigit(gap + rest);
    ValueRead(f, gap + rest, c);
    BlanksRead(gap, after);
    BlanksRead(gap, rest);
    hide Quote, SkipBlanks, SkipColon, ReadString, ReadValue, Show, Fits, Assign, Blanks, WellTyped;
  }

  /** Reading the written fields assigns them in order. */
  lemma {:induction false} MembersRead(lead: string, fields: seq<Field>, gap: string, rest: string, c: Config)
    requires Blanks(lead) && Blanks(gap) && forall i :: 0 <= i < |fields| ==> WellTyped(fields[i])
    ensures ParseFields(lead + Members(fields, gap, rest), c) == AssignAll(c, fields)
    decreases |fields|
  {
    if fields == [] {
      BlanksRead(lead, "}" + rest);
    } else {
      var f, tail := fields[0], AfterField(fields[1..], gap, rest);
      FieldRead(f, gap, tail, c);
      BlanksRead(lead, FieldText(f, gap, tail));
      AfterFieldRead(fields[1..], gap, rest, Assign(c, f));
      LongerText(f, gap, tail);
      if Fits(f) { MembersRead(gap, fields[1..], gap, rest, Assign(c, f)); }
      hide FieldText, AfterField, SkipBlanks, ReadField, Fits, Assign, Blanks, WellTyped;
    }
  }

  lemma LongerText(f: Field, gap: string, rest: string)
    ensures |FieldText(f, gap, rest)| > |rest|
  {
  }

  lemma AfterFieldRead(fields: seq<Field>, gap: string, rest: string, c: Config)
    ensures var t := AfterField(fields, gap, rest);
            && t != "" && t[0] == (if fields == [] then '}' else ',')
            && ParseFields(t, c) == if fields == [] then Parsed(c) else ParseFields(gap + Members(fields, gap, rest), c)
  {
    var t := AfterField(fields, gap, rest);
    assert SkipBlanks(t) == t;
    assert fields != [] ==> t[1..] == gap + Members(fields, gap, rest);
    hide SkipBlanks, Members, ReadField;
  }

  /** Reading a written object. */
  lemma PrintRead(lead: string, fields: seq<Field>, gap: string, rest: string)
    requires Blanks(lead) && Blanks(gap) && forall i :: 0 <= i < |fields| ==> WellTyped(fields[i])
    ensures ParseConfig(lead + Print(fields, gap, rest)) == AssignAll(DEFAULT, fields)
  {
    BlanksRead(lead, Print(fields, gap, rest));
    assert Print(fields, gap, rest)[1..] == gap + Members(fields, gap, rest);
    MembersRead(gap, fields, gap, rest, DEFAULT);
    hide ParseFields, Members, AssignAll, SkipBlanks, Blanks;
  }

  // ---- the round trip ----

  /** The fields hold values of their C++ types. */
  predicate InRange(c: Config) {
    && 0 <= c.port < 0x1_0000
    && 0 <= c.maxFileSizeMb < 0x1_0000_0000_0000_0000
    && -0x8000_0000 <= c.maxConcurrentDownloads < 0x8000_0000
    && -0x8000_0000 <= c.defaultExpireMinutes < 0x8000_0000
    && -0x8000_0000 <= c.maxExpireMinutes < 0x8000_0000
  }

  function FieldsOf(c: Config): seq<Field> {
    [ Field("port", Number(c.port)),
      Field("storage_dir", Text(c.storageDir)),
      Field("max_file_size_mb", Number(c.maxFileSizeMb)),
      Field("max_concurrent_downloads", Number(c.maxConcurrentDownloads)),
      Field("default_expire_minutes", Number(c.defaultExpireMinutes)),
      Field("max_expire_minutes", Number(c.maxExpireMinutes)) ]
  }

  predicate IsKnown(f: Field) { IsNumberKey(Kept(f.key)) || Kept(f.key) == "storage_dir" }

  /** The fields whose key the reader takes for a known one, in order. */
  function Known(fields: seq<Field>): seq<Field> {
    if fields == [] then []
    else (if IsKnown(fields[0]) then [fields[0]] else []) + Known(fields[1..])
  }

  /** Unknown keys change nothing. */
  lemma {:induction false} UnknownIgnored(c: Config, fields: seq<Field>)
    requires forall i :: 0 <= i < |fields| && !IsKnown(fields[i]) ==> Fits(fields[i])
    ensures AssignAll(c, fields) == AssignAll(c, Known(fields))
    decreases |fields|
  {
    if fields != [] {
      var f := fields[0];
      if Fits(f) { UnknownIgnored(Assign(c, f), fields[1..]); }
      if IsKnown(f) {
        assert Known(fields) == [f] + Known(fields[1..]);
        assert Known(fields)[1..] == Known(fields[1..]);
      } else {
        assert Known(fields) == [] + Known(fields[1..]) == Known(fields[1..]);
        assert Assign(c, f) == c;
      }
    }
  }

  lemma AssignNext(c: Config, f: Field, fields: seq<Field>)
    ensures AssignAll(c, [f] + fields) == if Fits(f) then AssignAll(Assign(c, f), fields) else Undefined
  {
  }

  lemma KeyKept(key: string)
    requires forall i :: 0 <= i < |key| ==> key[i] >= ' '
    ensures Kept(key) == key
  {
    KeptIff(key);
  }

  /** The known keys are read as they are written. */
  lemma KeysKept(c: Config)
    ensures forall f <- FieldsOf(c) :: Kept(f.key) == f.key
  {
    hide Kept;
    KeyKept("port");
    KeyKept("storage_dir");
    KeyKept("max_file_size_mb");
    KeyKept("max_concurrent_downloads");
    KeyKept("default_expire_minutes");
    KeyKept("max_expire_minutes");
  }

  /** The configuration as it is read back. */
  function Reread(c: Config): Config { c.(storageDir := Kept(c.storageDir)) }

  lemma AssignKept(d: Config, f: Field)
    requires Kept(f.key) == f.key
    ensures f.value.Number? ==> Assign(d, f) == SetNumber(d, f.key, f.value.n)
    ensures f.value.Text? && f.key == "storage_dir" ==> Assign(d, f) == d.(storageDir := Kept(f.value.text))
  {
    hide Kept, SetNumber, IsNumberKey;
  }

  /** What the known fields do to any configuration. */
  lemma AssignFields(c: Config, d: Config)
    requires InRange(c)
    ensures var fs := FieldsOf(c);
            && Assign(d, fs[0]) == d.(port := c.port)
            && Assign(d, fs[1]) == d.(storageDir := Kept(c.storageDir))
            && Assign(d, fs[2]) == d.(maxFileSizeMb := c.maxFileSizeMb)
            && Assign(d, fs[3]) == d.(maxConcurrentDownloads := c.maxConcurrentDownloads)
            && Assign(d, fs[4]) == d.(defaultExpireMinutes := c.defaultExpireMinutes)
            && Assign(d, fs[5]) == d.(maxExpireMinutes := c.maxExpireMinutes)
  {
    hide Kept, Assign;
    KeysKept(c);
    forall i | 0 <= i < 6 ensures Kept(FieldsOf(c)[i].key) == FieldsOf(c)[i].key {
      assert FieldsOf(c)[i] in FieldsOf(c);
    }
    var fs := FieldsOf(c);
    AssignKept(d, fs[0]);
    AssignKept(d, fs[1]);
    AssignKept(d, fs[2]);
    AssignKept(d, fs[3]);
    AssignKept(d, fs[4]);
    AssignKept(d, fs[5]);
  }

  lemma AssignEvery(c: Config, d: Config)
    requires InRange(c)
    ensures AssignAll(d, FieldsOf(c)) == if c.maxFileSizeMb <= INT64_MAX then Parsed(Reread(c)) else Undefined
  {
    hide Kept, AssignAll, Assign;
    var fs := FieldsOf(c);
    var d1 := d.(port := c.port);
    var d2 := d1.(storageDir := Kept(c.storageDir));
    var d3 := d2.(maxFileSizeMb := c.maxFileSizeMb);
    var d4 := d3.(maxConcurrentDownloads := c.maxConcurrentDownloads);
    var d5 := d4.(defaultExpireMinutes := c.defaultExpireMinutes);
    assert Fits(fs[0]) && Fits(fs[1]) && Fits(fs[3]) && Fits(fs[4]) && Fits(fs[5]);
    assert Fits(fs[2]) <==> c.maxFileSizeMb <= INT64_MAX;
    assert fs == [fs[0]] + ([fs[1]] + ([fs[2]] + ([fs[3]] + ([fs[4]] + ([fs[5]] + [])))));
    AssignFields(c, d);
    AssignFields(c, d1);
    AssignFields(c, d2);
    AssignFields(c, d3);
    AssignFields(c, d4);
    AssignFields(c, d5);
    hide Fits, FieldsOf, InRange;
    AssignNext(d, fs[0], [fs[1]] + ([fs[2]] + ([fs[3]] + ([fs[4]] + ([fs[5]] + [])))));
    AssignNext(d1, fs[1], [fs[2]] + ([fs[3]] + ([fs[4]] + ([fs[5]] + []))));
    AssignNext(d2, fs[2], [fs[3]] + ([fs[4]] + ([fs[5]] + [])));
    AssignNext(d3, fs[3], [fs[4]] + ([fs[5]] + []));
    AssignNext(d4, fs[4], [fs[5]] + []);
    AssignNext(d5, fs[5], []);
    AssignNothing(Reread(c));
  }

  lemma AssignNothing(c: Config)
    ensures AssignAll(c, []) == Parsed(c)
  {
  }

  /** The round trip: a configuration written with any white space, unknown fields of either kind
      between its own and anything behind the object, is read back, whatever the defaults, with two
      exceptions. The reader cannot take in the upper half of size_t, a file size of 2^63 or more; and it drops
      the control characters of the directory name that have no short escape. */
  lemma RoundTrip(lead: string, c: Config, fields: seq<Field>, gap: string, rest: string)
    requires InRange(c) && Known(fields) == FieldsOf(c)
    requires forall i :: 0 <= i < |fields| && !IsKnown(fields[i]) ==> Fits(fields[i])
    requires Blanks(lead) && Blanks(gap)
    ensures ParseConfig(lead + Print(fields, gap, rest))
            == if c.maxFileSizeMb <= INT64_MAX then Parsed(Reread(c)) else Undefined
    ensures ParseConfig(lead + Print(fields, gap, rest)) == Parsed(c)
            <==> c.maxFileSizeMb <= INT64_MAX && forall ch <- c.storageDir :: !IsControl(ch)
  {
    hide ParseConfig, Print, AssignAll, Known, Fits, Blanks, InRange, FieldsOf, WellTyped, IsKnown, Kept, IsControl;
    forall i | 0 <= i < |fields|
      ensures WellTyped(fields[i])
    {
      if IsKnown(fields[i]) { KnownIsThere(fields, i); }
      FieldsWellTyped(c, fields[i]);
    }
    PrintRead(lead, fields, gap, rest);
    UnknownIgnored(DEFAULT, fields);
    AssignEvery(c, DEFAULT);
    KeptIff(c.storageDir);
  }

  lemma FieldsWellTyped(c: Config, f: Field)
    requires IsKnown(f) ==> f in FieldsOf(c)
    ensures WellTyped(f)
  {
    hide Kept;
    KeysKept(c);
  }

  lemma {:induction false} KnownIsThere(fields: seq<Field>, i: nat)
    requires i < |fields| && IsKnown(fields[i])
    ensures fields[i] in Known(fields)
    decreases |fields|
  {
    if i > 0 { KnownIsThere(fields[1..], i - 1); }
  }

  // ---- texts that show the limits ----

  lemma BareTrue()
    ensures MeetsBareWord(":true}") && !MeetsBigNumber(":true}")
  {
    hide ReadChars;
    assert ":true}"[1..] == "true}";
    assert MeetsBareWord("true}") && !MeetsBigNumber("true}");
  }

  lemma QuotedA()
    ensures Quote("a") == "\"a\""
  {
    assert EscapeAll("a") == "a" by { assert "a"[1..] == "" && "a" + "" == "a"; }
  }

  /** A value that is neither a string nor a number: the reader never comes back. */
  lemma BareWordIsEndless()
    ensures ParseConfig("{\"a\":true}") == Endless
  {
    hide ReadChars, ParseFields, Quote, Kept;
    var t := "\"a\":true}";
    assert "{\"a\":true}"[1..] == t;
    QuotedRead("a", ":true}");
    QuotedA();
    assert Quote("a") + ":true}" == t;
    BareTrue();
    OutcomeIff(t, DEFAULT);
  }

  /** A size limit of 2^63 overflows, although the field has room for it. */
  lemma HugeSizeIsUndefined(gap: string)
    requires Blanks(gap)
    ensures var c := DEFAULT.(maxFileSizeMb := 0x8000_0000_0000_0000);
            InRange(c) && ParseConfig(Print(FieldsOf(c), gap, "")) == Undefined
  {
    var c := DEFAULT.(maxFileSizeMb := 0x8000_0000_0000_0000);
    KnownFields(c);
    hide Known, FieldsOf, ParseConfig, Print;
    RoundTrip("", c, FieldsOf(c), gap, "");
    assert "" + Print(FieldsOf(c), gap, "") == Print(FieldsOf(c), gap, "");
  }

  lemma KeptPair(a: char, b: char)
    requires !IsControl(a) && IsControl(b)
    ensures Kept([a, b]) == [a]
  {
    hide IsControl;
    assert [a, b][1..] == [b] && [b][1..] == "";
    assert Kept([b]) == "" && [a] + "" == [a];
  }

  /** What a server is configured with that is given an empty object, or no object at all. */
  lemma Defaults(text: string)
    requires text == "{}" || text == "" || (text[0] != '{' && !IsBlank(text[0]))
    ensures ParseConfig(text) == Parsed(Config(8080, "./data", 0, 0, 10, 1440))
  {
    if text == "{}" {
      assert text[1..] == "}";
      assert SkipBlanks(text) == text && SkipBlanks("}") == "}";
    }
  }

  /** A directory name with a control character comes back without it. */
  lemma ControlIsLost(gap: string)
    requires Blanks(gap)
    ensures var c := DEFAULT.(storageDir := ['a', 1 as char]);
            InRange(c) && ParseConfig(Print(FieldsOf(c), gap, "")) == Parsed(c.(storageDir := "a"))
  {
    hide Known, FieldsOf, ParseConfig, Print, Kept;
    var c := DEFAULT.(storageDir := ['a', 1 as char]);
    KeptPair('a', 1 as char);
    KnownFields(c);
    RoundTrip("", c, FieldsOf(c), gap, "");
    assert "" + Print(FieldsOf(c), gap, "") == Print(FieldsOf(c), gap, "");
  }

  lemma KnownFields(c: Config)
    ensures Known(FieldsOf(c)) == FieldsOf(c)
    ensures forall f <- FieldsOf(c) :: IsKnown(f)
  {
    hide Kept;
    KeysKept(c);
    AllKnown(FieldsOf(c));
  }

  lemma {:induction false} AllKnown(fields: seq<Field>)
    requires forall i :: 0 <= i < |fields| ==> IsKnown(fields[i])
    ensures Known(fields) == fields
  {
    if fields != [] { AllKnown(fields[1..]); }
  }
}
