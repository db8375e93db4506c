/** Splitting a path into segments, and decoding one segment. */
module UrlPath {
  import opened Numbers
  import opened Strings

  // ---- percent decoding ----

  /** An escape starts here: a percent sign and two hexadecimal digits. */
  predicate EscapeAt(s: string, i: nat) {
    i + 2 < |s| && s[i] == '%' && IsHexDigit(s[i + 1]) && IsHexDigit(s[i + 2])
  }

  function Unescape(hi: char, lo: char): char
    requires IsHexDigit(hi) && IsHexDigit(lo)
  {
    (16 * HexDigitValue(hi) + HexDigitValue(lo)) as char
  }

  function UrlDecode(s: string): (r: string)
    ensures |r| <= |s|
  {
    if s == "" then ""
    else if EscapeAt(s, 0) then [Unescape(s[1], s[2])] + UrlDecode(s[3..])
    else [if s[0] == '+' then ' ' else s[0]] + UrlDecode(s[1..])
  }

  lemma DecodeStep(s: string, i: nat)
    requires i < |s|
    ensures EscapeAt(s, i) ==> UrlDecode(s[i..]) == [Unescape(s[i + 1], s[i + 2])] + UrlDecode(s[i + 3..])
    ensures !EscapeAt(s, i) ==>
              UrlDecode(s[i..]) == [if s[i] == '+' then ' ' else s[i]] + UrlDecode(s[i + 1..])
  {
  }

  method DecodeUrl(src: string) returns (result: string)
    ensures result == UrlDecode(src)
  {
    hide UrlDecode;
    result := "";
    var i := 0;
    assert src[0..] == src;
    while i < |src|
      invariant 0 <= i <= |src|
      invariant result + UrlDecode(src[i..]) == UrlDecode(src)
    {
      DecodeStep(src, i);
      if src[i] == '%' && i + 2 < |src| && IsHexDigit(src[i + 1]) && IsHexDigit(src[i + 2]) {
        result := result + [(HexDigitValue(src[i + 1]) * 16 + HexDigitValue(src[i + 2])) as char];
        i := i + 2;
      } else if src[i] == '+' {
        result := result + [' '];
      } else {
        result := result + [src[i]];
      }
      i := i + 1;
    }
    DecodeNothing();
  }

  lemma DecodeNothing()
    ensures UrlDecode("") == ""
  {
  }

  /** `piece` is one way of writing the byte `c`: as itself, a space as a plus sign, or, as in
      section 2.1 of RFC 3986, as a percent sign and its two hexadecimal digits in either case. */
  predicate Writes(piece: string, c: char) {
    || (piece == [c] && c != '%' && c != '+')
    || (piece == "+" && c == ' ')
    || (|piece| == 3 && EscapeAt(piece, 0) && Unescape(piece[1], piece[2]) == c)
  }

  /** Decoding inverts every percent-encoding of every byte string, however the encoder chose to
      write each byte. */
  lemma {:induction false} DecodeInvertsEncode(pieces: seq<string>, s: string)
    requires |pieces| == |s| && forall i :: 0 <= i < |s| ==> Writes(pieces[i], s[i])
    ensures UrlDecode(Concat(pieces)) == s
  {
    if s != "" {
      var p, rest := pieces[0], Concat(pieces[1..]);
      DecodeInvertsEncode(pieces[1..], s[1..]);
      assert Writes(p, s[0]);
      assert (p + rest)[|p|..] == rest;
      if |p| == 3 {
        assert EscapeAt(p + rest, 0);
      } else {
        assert !EscapeAt(p + rest, 0);
      }
      assert s == [s[0]] + s[1..];
    }
  }

  /** Every byte can be written as an escape, so every byte string has an encoding. */
  lemma EveryByteWrites(c: char) returns (piece: string)
    requires c as int < 256
    ensures Writes(piece, c)
  {
    var digits := "0123456789ABCDEF";
    var hi, lo := digits[c as int / 16], digits[c as int % 16];
    assert forall d :: 0 <= d < 16 ==> IsHexDigit(digits[d]) && HexDigitValue(digits[d]) == d;
    piece := ['%', hi, lo];
    assert piece[1] == hi && piece[2] == lo;
  }

  /** Decoding leaves a string alone exactly when it holds no plus sign and no escape. */
  lemma {:induction false} DecodeIsIdentityIff(s: string)
    ensures UrlDecode(s) == s <==> '+' !in s && forall i :: 0 <= i < |s| ==> !EscapeAt(s, i)
  {
    if s != "" && EscapeAt(s, 0) {
      assert |UrlDecode(s)| < |s|;
    } else if s != "" {
      var rest := s[1..];
      DecodeIsIdentityIff(rest);
      assert s == [s[0]] + rest;
      assert UrlDecode(s)[1..] == UrlDecode(rest);
      assert forall i :: 0 <= i < |rest| ==> (EscapeAt(rest, i) <==> EscapeAt(s, i + 1));
      assert forall i :: 0 < i < |s| ==> (EscapeAt(rest, i - 1) <==> EscapeAt(s, i));
    }
  }

  // ---- splitting ----

  function SplitFrom(path: string, start: nat): seq<string>
    decreases |path| - start
  {
    if start >= |path| then []
    else match FindChar(path, '/', start)
      case None => [path[start..]]
      case Some(end) => (if end > start then [path[start..end]] else []) + SplitFrom(path, end + 1)
  }

  /** The segments of a path. A path that does not start with a slash has none. */
  function SplitPath(path: string): seq<string> {
    if path == "" || path[0] != '/' then [] else SplitFrom(path, 1)
  }

  lemma SplitStep(path: string, start: nat, end: nat)
    requires start < |path| && FindChar(path, '/', start) == Some(end)
    ensures SplitFrom(path, start)
            == (if end > start then [path[start..end]] else []) + SplitFrom(path, end + 1)
  {
  }

  lemma SplitLast(path: string, start: nat)
    requires start < |path| ==> FindChar(path, '/', start).None?
    ensures SplitFrom(path, start) == if start < |path| then [path[start..]] else []
  {
  }

  method Split(path: string) returns (segments: seq<string>)
    ensures segments == SplitPath(path)
  {
    hide SplitFrom;
    segments := [];
    if |path| == 0 || path[0] != '/' { return; }
    var start := 1;
    while start < |path|
      invariant 1 <= start
      invariant segments + SplitFrom(path, start) == SplitPath(path)
      decreases |path| - start
    {
      var end := FindChar(path, '/', start);
      if end.None? {
        SplitLast(path, start);
        segments := segments + [path[start..]];
        return;
      }
      SplitStep(path, start, end.value);
      if end.value > start {
        segments := segments + [path[start..end.value]];
      }
      start := end.value + 1;
    }
    SplitLast(path, start);
  }

  /** What a segment looks like: not empty, and without a slash. */
  predicate Clean(segments: seq<string>) {
    forall i :: 0 <= i < |segments| ==> segments[i] != "" && '/' !in segments[i]
  }

  lemma {:induction false} SplitFromIsClean(path: string, start: nat)
    ensures Clean(SplitFrom(path, start))
    decreases |path| - start
  {
    if start < |path| {
      SplitFromIsClean(path, match FindChar(path, '/', start) case None => |path| case Some(end) => end + 1);
    }
  }

  lemma SplitIsClean(path: string)
    ensures Clean(SplitPath(path))
  {
    SplitFromIsClean(path, 1);
  }

  /** Splitting from an index looks only at the rest of the path. */
  lemma {:induction false} SplitSuffix(a: string, b: string, i: nat)
    ensures SplitFrom(a + b, |a| + i) == SplitFrom(b, i)
    decreases |b| - i
  {
    hide SplitFrom;
    FindCharSuffix(a, b, i);
    var found := FindChar(b, '/', i);
    if i >= |b| || found.None? {
      SplitLast(b, i);
      SplitLast(a + b, |a| + i);
      if i < |b| { SuffixSlice(a, b, i, |b|); }
    } else {
      SplitStep(b, i, found.value);
      SplitStep(a + b, |a| + i, |a| + found.value);
      SuffixSlice(a, b, i, found.value);
      SplitSuffix(a, b, found.value + 1);
    }
  }

  lemma SuffixSlice(a: string, b: string, i: nat, j: nat)
    requires i <= j <= |b|
    ensures (a + b)[|a| + i..|a| + j] == b[i..j]
    ensures j == |b| ==> (a + b)[|a| + i..] == b[i..]
  {
  }

  lemma {:induction false} FindCharSuffix(a: string, b: string, i: nat)
    ensures FindChar(a + b, '/', |a| + i)
            == match FindChar(b, '/', i) case None => None case Some(end) => Some(|a| + end)
    decreases |b| - i
  {
    if i < |b| { FindCharSuffix(a, b, i + 1); }
  }

  function Slashes(n: nat): string {
    seq(n, _ => '/')
  }

  /** Segments written out with any number of slashes before each one and after the last. */
  function Join(segments: seq<string>, gaps: seq<nat>, trailing: nat): string
    requires |gaps| == |segments|
  {
    if segments == [] then Slashes(trailing)
    else Slashes(gaps[0]) + segments[0] + Join(segments[1..], gaps[1..], trailing)
  }

  lemma {:induction false} SkipSlashes(n: nat, rest: string)
    ensures SplitFrom(Slashes(n) + rest, 0) == SplitFrom(rest, 0)
  {
    if n == 0 {
      assert Slashes(n) + rest == rest;
    } else {
      assert Slashes(n) + rest == "/" + (Slashes(n - 1) + rest);
      SplitSuffix("/", Slashes(n - 1) + rest, 0);
      SkipSlashes(n - 1, rest);
    }
  }

  lemma TakeSegment(seg: string, rest: string)
    requires seg != "" && '/' !in seg
    requires rest == "" || rest[0] == '/'
    ensures SplitFrom(seg + rest, 0) == [seg] + SplitFrom(rest, 0)
  {
    hide SplitFrom;
    var path := seg + rest;
    assert forall i :: 0 <= i < |seg| ==> path[i] == seg[i];
    if rest == "" {
      assert path[0..] == seg;
      SplitLast(path, 0);
      SplitLast(rest, 0);
    } else {
      FindCharIs(path, '/', 0, |seg|);
      assert path[0..|seg|] == seg;
      SplitStep(path, 0, |seg|);
      SplitSuffix(seg, rest, 1);
      assert FindChar(rest, '/', 0) == Some(0);
      SplitStep(rest, 0, 0);
    }
  }

  lemma {:induction false} SplitFromJoin(segments: seq<string>, gaps: seq<nat>, trailing: nat)
    requires Clean(segments) && |gaps| == |segments|
    requires forall i :: 0 < i < |gaps| ==> gaps[i] >= 1
    ensures SplitFrom(Join(segments, gaps, trailing), 0) == segments
  {
    if segments == [] {
      SkipSlashes(trailing, "");
      assert Slashes(trailing) + "" == Slashes(trailing);
    } else {
      var rest := Join(segments[1..], gaps[1..], trailing);
      assert Join(segments, gaps, trailing) == Slashes(gaps[0]) + (segments[0] + rest);
      SkipSlashes(gaps[0], segments[0] + rest);
      assert segments[0] in segments;
      TakeSegment(segments[0], rest);
      SplitFromJoin(segments[1..], gaps[1..], trailing);
    }
  }

  /** Splitting inverts joining, and repeated or trailing slashes make no difference. */
  lemma SplitInvertsJoin(segments: seq<string>, gaps: seq<nat>, trailing: nat)
    requires Clean(segments) && |gaps| == |segments|
    requires forall i :: 0 <= i < |gaps| ==> gaps[i] >= 1
    ensures SplitPath(Join(segments, gaps, trailing)) == segments
  {
    var path := Join(segments, gaps, trailing);
    SplitFromJoin(segments, gaps, trailing);
    if path != "" {
      assert path[0] == '/';
      SplitSuffix(path[..1], path[1..], 0);
      assert path == path[..1] + path[1..];
      assert FindChar(path, '/', 0) == Some(0);
    }
  }

  /** A path has segments exactly if it starts with a slash and holds anything else. */
  lemma HasSegmentsIff(path: string)
    ensures SplitPath(path) != [] <==> path != "" && path[0] == '/' && exists i :: 0 <= i < |path| && path[i] != '/'
  {
    SplitsIff(path, 1);
  }

  lemma {:induction false} SplitsIff(path: string, start: nat)
    ensures SplitFrom(path, start) != [] <==> exists i :: start <= i < |path| && path[i] != '/'
    decreases |path| - start
  {
    if start < |path| {
      match FindChar(path, '/', start) {
        case None =>
        case Some(end) => SplitsIff(path, end + 1);
      }
    }
  }
}
