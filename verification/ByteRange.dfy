/** Byte ranges: from the text of a Range header to the bytes of the file that go out. */
module ByteRange {
  import opened Strings
  import opened Numbers
  import opened Headers

  /** The range fields of a request. A start of -1 marks a suffix, an end of -1 an open end. */
  datatype Parsed = Parsed(hasRange: bool, start: int, end: int)

  const NO_RANGE := Parsed(false, 0, -1)
  const PREFIX := "bytes="

  /** What the text of a Range header means to the parser. */
  function Parse(value: string): Parsed {
    if |value| <= |PREFIX| || value[..|PREFIX|] != PREFIX then NO_RANGE
    else
      var spec := value[|PREFIX|..];
      var dash := FindChar(spec, '-', 0);
      if FindChar(spec, ',', 0).Some? || dash.None? then NO_RANGE
      else ParseSpec(spec[..dash.value], spec[dash.value + 1..])
  }

  function ParseSpec(first: string, last: string): Parsed {
    if first == "" && last == "" then NO_RANGE
    else if first == "" then
      match Stoll(last) case None => NO_RANGE case Some(n) => Parsed(true, -1, n)
    else
      match Stoll(first)
      case None => NO_RANGE
      case Some(a) =>
        if a < 0 then NO_RANGE
        else if last == "" then Parsed(true, a, -1)
        else match Stoll(last) case None => NO_RANGE case Some(b) => Parsed(true, a, if b < 0 then -1 else b)
  }

  /** The request as far as headers and ranges go. */
  class HttpRequest {
    var headers: Fields
    var hasRange: bool
    var rangeStart: int
    var rangeEnd: int

    constructor ()
      ensures headers == [] && Range() == NO_RANGE
    {
      headers, hasRange, rangeStart, rangeEnd := [], false, 0, -1;
    }

    function Range(): Parsed
      reads this
    {
      Parsed(hasRange, rangeStart, rangeEnd)
    }

    method SetHeader(name: string, value: string)
      modifies this`headers
      ensures headers == Put(old(headers), name, value)
    {
      headers := Store(headers, name, value);
    }

    method Header(name: string) returns (value: string)
      ensures value == Get(headers, name)
    {
      value := Lookup(headers, name);
    }

    method ParseRange()
      modifies this`hasRange, this`rangeStart, this`rangeEnd
      ensures Range() == Parse(Get(headers, "Range"))
    {
      hasRange, rangeStart, rangeEnd := false, 0, -1;
      var value := Header("Range");
      if value == "" { return; }
      if |value| <= |PREFIX| || value[..|PREFIX|] != PREFIX { return; }
      var spec := value[|PREFIX|..];
      if FindChar(spec, ',', 0).Some? { return; }
      var dash := FindChar(spec, '-', 0);
      if dash.None? { return; }
      var first, last := spec[..dash.value], spec[dash.value + 1..];
      if first == "" && last == "" { return; }
      if first == "" {
        var n := Stoll(last);
        if n.None? { return; }
        rangeStart, rangeEnd := -1, n.value;
      } else {
        var a := Stoll(first);
        if a.None? || a.value < 0 { return; }
        if last != "" {
          var b := Stoll(last);
          if b.None? { return; }
          rangeEnd := if b.value < 0 then -1 else b.value;
        }
        rangeStart := a.value;
      }
      hasRange := true;
    }
  }

  // ---- resolution against a file ----

  datatype Answer =
    | Whole                                 // 200, the entire file
    | Partial(first: int, last: int)        // 206, these bytes, both ends included
    | NotSatisfiable                        // 416

  function Resolve(r: Parsed, fileSize: nat): Answer {
    if !r.hasRange then Whole
    else
      var first := if r.start == -1 then fileSize - r.end else r.start;
      var last := if r.start == -1 || r.end == -1 || r.end >= fileSize then fileSize - 1 else r.end;
      if 0 <= first <= last < fileSize then Partial(first, last) else NotSatisfiable
  }

  /** The resolution as processRequest makes it, in steps on local variables. `length` is what
      sendFile is given. */
  method ResolveRange(r: Parsed, fileSize: nat) returns (answer: Answer, length: int)
    ensures answer == Resolve(r, fileSize)
    ensures answer.Partial? ==> length == answer.last - answer.first + 1
  {
    length := 0;
    if !r.hasRange { return Whole, 0; }
    var start, end := r.start, r.end;
    if start == -1 {
      var suffix := end;
      start := fileSize - suffix;
      end := fileSize - 1;
    }
    if end == -1 || end >= fileSize {
      end := fileSize - 1;
    }
    if start < 0 || start >= fileSize || end < 0 || end >= fileSize || start > end {
      return NotSatisfiable, 0;
    }
    return Partial(start, end), end - start + 1;
  }

  // ---- section 14.1.2 of RFC 9110 ----

  datatype Spec = FromTo(first: nat, last: nat) | From(first: nat) | Suffix(length: nat)

  function Print(s: Spec): string {
    PREFIX + match s
      case FromTo(a, b) => Decimal(a) + "-" + Decimal(b)
      case From(a) => Decimal(a) + "-"
      case Suffix(n) => "-" + Decimal(n)
  }

  /** What the standard asks for. A range whose end is before its start is invalid, and ignored. A
      suffix longer than the file means all of it; of an empty file there is no part to name, so the
      answer is the whole. */
  function Standard(s: Spec, fileSize: nat): Answer {
    match s
    case FromTo(a, b) =>
      if b < a then Whole
      else if a < fileSize then Partial(a, if b < fileSize then b else fileSize - 1)
      else NotSatisfiable
    case From(a) => if a < fileSize then Partial(a, fileSize - 1) else NotSatisfiable
    case Suffix(n) =>
      if n == 0 then NotSatisfiable
      else if fileSize == 0 then Whole
      else Partial(if n < fileSize then fileSize - n else 0, fileSize - 1)
  }

  predicate Fits64(s: Spec) {
    match s
    case FromTo(a, b) => a <= INT64_MAX && b <= INT64_MAX
    case From(a) => a <= INT64_MAX
    case Suffix(n) => n <= INT64_MAX
  }

  /** Printing a range and parsing it gives its numbers back, as long as they fit 64 bits; otherwise
      the header is ignored. */
  lemma ParseOfPrint(s: Spec)
    ensures Parse(Print(s)) == if !Fits64(s) then NO_RANGE else
                                 match s
                                 case FromTo(a, b) => Parsed(true, a, b)
                                 case From(a) => Parsed(true, a, -1)
                                 case Suffix(n) => Parsed(true, -1, n)
  {
    hide Stoll, Decimal, Parse;
    match s {
      case FromTo(a, b) =>
        NoMarks(a);
        NoMarks(b);
        ParseOfText(Decimal(a), Decimal(b));
        StollOfDecimal(a);
        StollOfDecimal(b);
      case From(a) => NoMarks(a); ParseOfText(Decimal(a), ""); StollOfDecimal(a);
      case Suffix(n) => NoMarks(n); ParseOfText("", Decimal(n)); StollOfDecimal(n);
    }
  }

  lemma NoMarks(n: nat)
    ensures '-' !in Decimal(n) && ',' !in Decimal(n) && ',' !in "-" + Decimal(n)
  {
    hide Decimal;
  }

  lemma ParseOfText(first: string, last: string)
    requires '-' !in first && ',' !in first && ',' !in last
    ensures Parse(PREFIX + (first + "-" + last)) == ParseSpec(first, last)
    ensures first + "-" + "" == first + "-" && "" + "-" + last == "-" + last
  {
    hide ParseSpec;
    var spec := first + "-" + last;
    SplitAtDash(first, last);
    assert (PREFIX + spec)[..|PREFIX|] == PREFIX && (PREFIX + spec)[|PREFIX|..] == spec;
  }

  lemma SplitAtDash(first: string, last: string)
    requires '-' !in first && ',' !in first && ',' !in last
    ensures var spec := first + "-" + last;
            && FindChar(spec, ',', 0) == None && FindChar(spec, '-', 0) == Some(|first|)
            && spec[..|first|] == first && spec[|first| + 1..] == last
  {
    var spec := first + "-" + last;
    assert forall i :: 0 <= i < |first| ==> spec[i] == first[i];
    assert forall i :: 0 <= i < |last| ==> spec[|first| + 1 + i] == last[i];
    assert spec[|first|] == '-';
    FindCharIs(spec, '-', 0, |first|);
    forall i | 0 <= i < |spec|
      ensures spec[i] != ','
    {
      if i > |first| { assert spec[i] == last[i - |first| - 1]; }
    }
  }

  /** Two numbers as the header's text has them: one may be missing, and each may be followed by anything that
      is no digit. The first must not be negative. */
  predicate Readable(first: string, last: string) {
    && (first != "" || last != "")
    && (first != "" ==> Stoll(first).Some? && Stoll(first).value >= 0)
    && (last != "" ==> Stoll(last).Some?)
  }

  /** Which texts are taken for a range, among all: one pair of numbers with a dash between them. */
  lemma HasRangeIff(value: string)
    ensures Parse(value).hasRange
            <==> exists first, last :: value == PREFIX + (first + "-" + last) && '-' !in first && ',' !in first + last
                                       && Readable(first, last)
  {
    hide Stoll;
    if Parse(value).hasRange {
      var spec := value[|PREFIX|..];
      var dash := FindChar(spec, '-', 0).value;
      var first, last := spec[..dash], spec[dash + 1..];
      assert value == PREFIX + spec && spec == first + "-" + last;
      assert forall c <- first + last :: c in spec;
    }
    if first, last :| value == PREFIX + (first + "-" + last) && '-' !in first && ',' !in first + last
                      && Readable(first, last) {
      assert forall c <- first :: c in first + last;
      assert forall c <- last :: c in first + last;
      ParseOfText(first, last);
      hide Parse;
    }
  }

  /** And which numbers they have: a missing first one marks a suffix, a missing or negative last one an open
      end. */
  lemma RangeIs(first: string, last: string)
    requires '-' !in first && ',' !in first && ',' !in last && Readable(first, last)
    ensures Parse(PREFIX + (first + "-" + last))
            == if first == "" then Parsed(true, -1, Stoll(last).value)
               else if last == "" || Stoll(last).value < 0 then Parsed(true, Stoll(first).value, -1)
               else Parsed(true, Stoll(first).value, Stoll(last).value)
  {
    hide Parse, Stoll;
    ParseOfText(first, last);
  }

  /** A list of ranges as section 14.1.2 of RFC 9110 writes it. */
  function PrintSpecs(specs: seq<Spec>): string {
    if specs == [] then ""
    else if |specs| == 1 then Print(specs[0])[|PREFIX|..]
    else Print(specs[0])[|PREFIX|..] + "," + PrintSpecs(specs[1..])
  }

  /** Several ranges are ignored, and the whole file is sent, which the standard allows. */
  lemma ListIsWhole(specs: seq<Spec>, fileSize: nat)
    requires |specs| >= 2
    ensures Resolve(Parse(PREFIX + PrintSpecs(specs)), fileSize) == Whole
  {
    hide Parse, Print;
    var value := PREFIX + PrintSpecs(specs);
    assert ',' in value;
    CommaIsIgnored(value);
  }

  lemma CommaIsIgnored(value: string)
    requires ',' in value
    ensures !Parse(value).hasRange
  {
    HasRangeIff(value);
    hide Parse, Readable;
    if first, last :| value == PREFIX + (first + "-" + last) && '-' !in first && ',' !in first + last
                      && Readable(first, last) {
      NoCommaIn(first, last);
    }
  }

  lemma NoCommaIn(first: string, last: string)
    requires ',' !in first + last
    ensures ',' !in PREFIX + (first + "-" + last)
  {
    assert forall c <- first :: c in first + last;
    assert forall c <- last :: c in first + last;
    assert forall c <- first + "-" + last :: c in first || c == '-' || c in last;
  }

  /** Where the code does what the standard asks for: exactly here. It does not for a suffix longer
      than the file, an empty file included, for an invalid range (which it answers with 416 instead of
      ignoring it), and for numbers beyond 64 bits, unless ignoring the header happens to be right. */
  predicate AsStandard(s: Spec, fileSize: nat) {
    match s
    case FromTo(a, b) => if b < a then a > INT64_MAX else b <= INT64_MAX
    case From(a) => a <= INT64_MAX
    case Suffix(n) => if n <= INT64_MAX then n <= fileSize else fileSize == 0
  }

  lemma AgreesWithStandardIff(s: Spec, fileSize: nat)
    requires fileSize <= INT64_MAX
    ensures Resolve(Parse(Print(s)), fileSize) == Standard(s, fileSize) <==> AsStandard(s, fileSize)
  {
    ParseOfPrint(s);
  }

  /** When the code answers with part of the file. */
  lemma PartialIff(s: Spec, fileSize: nat)
    requires fileSize <= INT64_MAX
    ensures Resolve(Parse(Print(s)), fileSize).Partial?
            <==> Fits64(s) && match s
                              case FromTo(a, b) => a <= b && a < fileSize
                              case From(a) => a < fileSize
                              case Suffix(n) => 1 <= n <= fileSize
    ensures Resolve(Parse(Print(s)), fileSize).Partial?
            ==> Resolve(Parse(Print(s)), fileSize) == Standard(s, fileSize)
  {
    ParseOfPrint(s);
  }

  /** A suffix range as the standard does not allow it, with a negative length. */
  function NegativeSuffix(m: nat): string {
    PREFIX + "--" + Decimal(m)
  }

  lemma ParseOfNegative(m: nat)
    ensures var n: int := m;
            Parse(NegativeSuffix(m)) == if n <= -INT64_MIN then Parsed(true, -1, -n) else NO_RANGE
  {
    hide Stoll, Decimal, Parse;
    NoMarks(m);
    var last := "-" + Decimal(m);
    ParseOfText("", last);
    StollOfNegative(m);
    assert NegativeSuffix(m) == PREFIX + ("" + "-" + last);
    assert last != "";
  }

  /** Where the subtraction is possible, such a range is refused. */
  lemma NegativeSuffixIsRefused(m: nat, fileSize: nat)
    ensures var r := Parse(NegativeSuffix(m)); r.hasRange ==> Resolve(r, fileSize) == NotSatisfiable
  {
    ParseOfNegative(m);
    hide Parse;
  }

  /** An end with a minus sign counts as no end: the rest of the file is sent, where the standard has the
      header ignored. */
  lemma NegativeEndIsOpen(a: nat, m: nat, fileSize: nat)
    requires m >= 1
    ensures var n: int := m;
            var r := Parse(PREFIX + (Decimal(a) + "-" + ("-" + Decimal(m))));
            && r == (if a <= INT64_MAX && n <= -INT64_MIN then Parsed(true, a, -1) else NO_RANGE)
            && (r.hasRange && a < fileSize ==> Resolve(r, fileSize) == Partial(a, fileSize - 1))
  {
    hide Stoll, Decimal, Parse;
    NoMarks(a);
    NoMarks(m);
    ParseOfText(Decimal(a), "-" + Decimal(m));
    StollOfDecimal(a);
    StollOfNegative(m);
  }

  /** The subtraction of the suffix from the file size leaves 64 bits for the headers with these
      lengths and no others: the numbers that still parse, and are too large to be added. */
  lemma SuffixOverflowIff(m: nat, fileSize: nat)
    requires fileSize <= INT64_MAX
    ensures var r := Parse(NegativeSuffix(m));
            r.hasRange && !InInt64(fileSize - r.end) <==> INT64_MAX - fileSize < m <= -INT64_MIN
  {
    ParseOfNegative(m);
    hide Parse;
  }

  /** It happens for every file with the length 2^63. And nothing else can leave 64 bits: whatever the
      header says, only a negative suffix does. */
  lemma SuffixOverflows(fileSize: nat)
    requires fileSize <= INT64_MAX
    ensures var r := Parse(NegativeSuffix(0x8000_0000_0000_0000));
            r.hasRange && r.start == -1 && !InInt64(fileSize - r.end)
    ensures forall value :: Parse(value).hasRange && Parse(value).start == -1 && !InInt64(fileSize - Parse(value).end)
                            ==> Parse(value).end < 0
  {
    hide Parse, NegativeSuffix;
    SuffixOverflowIff(0x8000_0000_0000_0000, fileSize);
    ParseOfNegative(0x8000_0000_0000_0000);
    forall value ensures Parse(value).hasRange ==> Parse(value).end <= INT64_MAX {
      NumbersFit(value);
    }
  }

  lemma NumbersFit(value: string)
    ensures Parse(value).hasRange ==> Parse(value).end <= INT64_MAX
  {
    hide FindChar;
  }

  /** A file of two bytes and a suffix of three: the standard sends both bytes, the code refuses. A range
      that ends before it starts, and a suffix of an empty file, are refused as well; and a range with
      an end beyond 64 bits is ignored. */
  lemma SuffixBeyondFile()
    ensures Standard(Suffix(3), 2) == Partial(0, 1) && Resolve(Parse(Print(Suffix(3))), 2) == NotSatisfiable
    ensures Standard(FromTo(1, 0), 2) == Whole && Resolve(Parse(Print(FromTo(1, 0))), 2) == NotSatisfiable
    ensures Standard(Suffix(1), 0) == Whole && Resolve(Parse(Print(Suffix(1))), 0) == NotSatisfiable
    ensures Standard(FromTo(0, INT64_MAX + 1), 2) == Partial(0, 1)
            && Resolve(Parse(Print(FromTo(0, INT64_MAX + 1))), 2) == Whole
  {
    ParseOfPrint(FromTo(0, INT64_MAX + 1));
    ParseOfPrint(Suffix(3));
    ParseOfPrint(FromTo(1, 0));
    ParseOfPrint(Suffix(1));
    hide Parse, Print;
  }

  /** What any Range header, well formed or not, can lead to: a part of the file with at least one byte,
      so sendFile never gets the length 0 that would mean the rest of the file, and with both of its
      ends and its length within 64 bits. */
  lemma PartialIsInFile(value: string, fileSize: nat)
    requires fileSize <= INT64_MAX && Resolve(Parse(value), fileSize).Partial?
    ensures var a := Resolve(Parse(value), fileSize);
            0 <= a.first <= a.last < fileSize && 1 <= a.last - a.first + 1 <= fileSize
    ensures Parse(value).start == -1 ==> InInt64(fileSize - Parse(value).end)
  {
  }
}
