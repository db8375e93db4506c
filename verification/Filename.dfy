/** Making an uploaded file name safe to use below the storage directory. */
module Filename {
  import opened Strings
  import opened UrlPath

  function ToSlash(c: char): char { if c == '\\' then '/' else c }

  function ToSlashes(s: string): (r: string)
    ensures |r| == |s|
  {
    seq(|s|, i requires 0 <= i < |s| => ToSlash(s[i]))
  }

  /** Two dots in a row, anywhere. */
  predicate HasDotDot(s: string) {
    exists i :: 0 <= i < |s| - 1 && s[i] == '.' && s[i + 1] == '.'
  }

  function StripSlashes(s: string): string {
    if s != "" && s[0] == '/' then StripSlashes(s[1..]) else s
  }

  /** The segments that name something: not empty, and not the current directory. */
  function WithoutDots(segments: seq<string>): seq<string> {
    if segments == [] then []
    else (if segments[0] == "." then [] else [segments[0]]) + WithoutDots(segments[1..])
  }

  function JoinSlash(segments: seq<string>): string {
    if segments == [] then ""
    else if |segments| == 1 then segments[0]
    else segments[0] + "/" + JoinSlash(segments[1..])
  }

  /** Directory mode: the relative path, normalised. */
  function KeepPath(name: string): string {
    JoinSlash(WithoutDots(SplitFrom(name, 0)))
  }

  /** What follows the last slash. */
  function AfterLastSlash(s: string): string {
    match FindChar(s, '/', 0) case None => s case Some(k) => AfterLastSlash(s[k + 1..])
  }

  /** File mode: the last segment alone. */
  function KeepBase(name: string): string {
    var base := AfterLastSlash(name);
    if base == "." then "" else base
  }

  /** The empty string means that the name is refused. */
  function Sanitize(filename: string, keepStructure: bool): string {
    var name := ToSlashes(filename);
    if HasDotDot(name) then ""
    else if keepStructure then KeepPath(StripSlashes(name))
    else KeepBase(StripSlashes(name))
  }

  // ---- the code ----

  method ConvertSlashes(filename: string) returns (name: string)
    ensures name == ToSlashes(filename)
  {
    name := filename;
    for i := 0 to |filename|
      invariant |name| == |filename|
      invariant forall j :: 0 <= j < |name| ==> name[j] == if j < i then ToSlash(filename[j]) else filename[j]
    {
      if name[i] == '\\' { name := name[i := '/']; }
    }
  }

  lemma DotDotIsFound(s: string)
    ensures Find(s, "..", 0).Some? <==> HasDotDot(s)
  {
    assert forall i :: 0 <= i < |s| - 1 ==> s[i..i + 2] == [s[i], s[i + 1]];
    var found := Find(s, "..", 0);
    if HasDotDot(s) {
      var i :| 0 <= i < |s| - 1 && s[i] == '.' && s[i + 1] == '.';
      assert OccursAt(s, "..", i);
    }
    if found.Some? {
      assert s[found.value] == s[found.value..found.value + 2][0];
      assert s[found.value + 1] == s[found.value..found.value + 2][1];
    }
  }

  /** Cuts the next segment off at a slash. */
  method NextSegment(name: string, start: nat) returns (segment: string, next: nat)
    requires start < |name|
    ensures start < next
    ensures SplitFrom(name, start) == (if segment == "" then [] else [segment]) + SplitFrom(name, next)
  {
    hide SplitFrom;
    var slash := FindChar(name, '/', start);
    if slash.None? {
      SplitLast(name, start);
      segment, next := name[start..], |name|;
      SplitLast(name, next);
    } else {
      SplitStep(name, start, slash.value);
      segment, next := name[start..slash.value], slash.value + 1;
    }
  }

  /** The directory-mode loop. */
  method BuildPath(name: string) returns (result: string)
    ensures result == KeepPath(name)
  {
    hide SplitFrom, KeepPath, JoinSlash, WithoutDots;
    ghost var kept := [];
    result := "";
    JoinNothing();
    var start := 0;
    while start < |name|
      invariant 0 <= start
      invariant result == JoinSlash(kept) && NonEmpty(kept)
      invariant kept + WithoutDots(SplitFrom(name, start)) == WithoutDots(SplitFrom(name, 0))
      decreases |name| - start
    {
      var segment;
      segment, start := NextSegment(name, start);
      WithoutDotsStep(segment, SplitFrom(name, start));
      if segment != "" && segment != "." {
        JoinOneMore(kept, segment);
        if result != "" { result := result + "/"; }
        result := result + segment;
        kept := kept + [segment];
      }
    }
    SplitLast(name, start);
    assert kept + [] == kept;
    PathIs(name);
  }

  predicate NonEmpty(segments: seq<string>) {
    forall i :: 0 <= i < |segments| ==> segments[i] != ""
  }

  lemma PathIs(name: string)
    ensures KeepPath(name) == JoinSlash(WithoutDots(SplitFrom(name, 0)))
  {
  }

  lemma JoinNothing()
    ensures JoinSlash([]) == "" && WithoutDots([]) == []
  {
  }

  lemma WithoutDotsStep(segment: string, rest: seq<string>)
    ensures WithoutDots((if segment == "" then [] else [segment]) + rest)
            == (if segment == "" || segment == "." then [] else [segment]) + WithoutDots(rest)
  {
    if segment == "" {
      assert [] + rest == rest;
    } else {
      assert ([segment] + rest)[1..] == rest;
    }
  }

  lemma {:induction false} JoinOneMore(kept: seq<string>, segment: string)
    requires NonEmpty(kept)
    ensures JoinSlash(kept + [segment]) == (if kept == [] then "" else JoinSlash(kept) + "/") + segment
    ensures kept != [] ==> JoinSlash(kept) != ""
  {
    if |kept| == 1 {
      assert (kept + [segment])[1..] == [segment];
    } else if kept != [] {
      JoinOneMore(kept[1..], segment);
      assert (kept + [segment])[1..] == kept[1..] + [segment];
    }
  }

  method SanitizeFilename(filename: string, keepStructure: bool) returns (result: string)
    ensures result == Sanitize(filename, keepStructure)
  {
    hide KeepPath, ToSlashes;
    var name := ConvertSlashes(filename);
    DotDotIsFound(name);
    if Find(name, "..", 0).Some? { return ""; }
    ghost var whole := name;
    while name != "" && name[0] == '/'
      invariant StripSlashes(name) == StripSlashes(whole)
      decreases |name|
    {
      name := name[1..];
    }
    if keepStructure {
      result := BuildPath(name);
    } else {
      result := Basename(name);
      if result == "" || result == "." { return ""; }
    }
  }

  /** rfind and substr. */
  method Basename(name: string) returns (base: string)
    ensures base == AfterLastSlash(name)
  {
    var i := |name|;
    while i > 0 && name[i - 1] != '/'
      invariant 0 <= i <= |name| && forall j :: i <= j < |name| ==> name[j] != '/'
    {
      i := i - 1;
    }
    base := name[i..];
    AfterLastSlashIs(name, i);
  }

  lemma {:induction false} AfterLastSlashIs(name: string, i: nat)
    requires i <= |name| && forall j :: i <= j < |name| ==> name[j] != '/'
    requires i > 0 ==> name[i - 1] == '/'
    ensures AfterLastSlash(name) == name[i..]
    decreases |name|
  {
    match FindChar(name, '/', 0) {
      case None => assert i == 0 && name[0..] == name;
      case Some(k) =>
        assert k < i;
        AfterLastSlashIs(name[k + 1..], i - k - 1);
        assert name[k + 1..][i - k - 1..] == name[i..];
    }
  }

  // ---- what the result is safe from ----

  /** No backslash and no two dots in a row. */
  predicate Tame(s: string) {
    '\\' !in s && !HasDotDot(s)
  }

  predicate AllTame(segments: seq<string>) {
    forall i :: 0 <= i < |segments| ==> Tame(segments[i])
  }

  predicate NoDots(segments: seq<string>) {
    forall i :: 0 <= i < |segments| ==> segments[i] != "."
  }

  /** A relative path in normal form: joined from its own segments, so none is empty and there is no
      slash at either end, none is the current or the parent directory, and no backslash is left. */
  predicate Safe(result: string) {
    && Tame(result)
    && result == JoinSlash(SplitFrom(result, 0))
    && NoDots(SplitFrom(result, 0))
    && (result != "" ==> result[0] != '/' && result[|result| - 1] != '/')
  }

  lemma TamePart(s: string, i: nat, j: nat)
    requires Tame(s) && i <= j <= |s|
    ensures Tame(s[i..j])
  {
  }

  lemma {:induction false} SegmentsAreTame(s: string, start: nat)
    requires Tame(s)
    ensures AllTame(SplitFrom(s, start))
    decreases |s| - start
  {
    hide Tame;
    if start < |s| {
      match FindChar(s, '/', start) {
        case None =>
          TamePart(s, start, |s|);
          assert s[start..|s|] == s[start..];
        case Some(end) =>
          TamePart(s, start, end);
          SegmentsAreTame(s, end + 1);
      }
    }
  }

  lemma {:induction false} FilterFacts(segments: seq<string>)
    requires Clean(segments) && AllTame(segments)
    ensures var kept := WithoutDots(segments); Clean(kept) && AllTame(kept) && NoDots(kept)
  {
    hide Tame;
    if segments != [] { FilterFacts(segments[1..]); }
  }

  lemma {:induction false} FilterNothing(segments: seq<string>)
    requires NoDots(segments)
    ensures WithoutDots(segments) == segments
  {
    if segments != [] { FilterNothing(segments[1..]); }
  }

  /** Joining cannot create two dots in a row: a slash stands between any two segments. */
  lemma TameJoin(a: string, b: string)
    requires Tame(a) && Tame(b)
    ensures Tame(a + "/" + b)
  {
  }

  lemma {:induction false} JoinIsTame(segments: seq<string>)
    requires AllTame(segments)
    ensures Tame(JoinSlash(segments))
  {
    if |segments| == 0 {
      assert Tame("");
    } else if |segments| > 1 {
      JoinIsTame(segments[1..]);
      TameJoin(segments[0], JoinSlash(segments[1..]));
    }
  }

  lemma {:induction false} SplitOfJoin(segments: seq<string>)
    requires Clean(segments)
    ensures SplitFrom(JoinSlash(segments), 0) == segments
    ensures var r := JoinSlash(segments); r != "" ==> r[0] != '/' && r[|r| - 1] != '/'
    ensures segments != [] ==> JoinSlash(segments) != ""
  {
    hide SplitFrom;
    if segments == [] {
      SplitLast("", 0);
    } else {
      var s := segments[0];
      assert s[0] in s && s[|s| - 1] in s;
      if |segments| == 1 {
        SplitLast("", 0);
        TakeSegment(s, "");
        assert s + "" == s && [s] + [] == segments;
      } else {
        var rest := JoinSlash(segments[1..]);
        SplitOfJoin(segments[1..]);
        TakeSegment(s, "/" + rest);
        SkipSlashes(1, rest);
        assert Slashes(1) == "/";
        assert JoinSlash(segments) == s + ("/" + rest);
        assert segments == [s] + segments[1..];
      }
    }
  }

  /** Every path made of clean, tame segments is safe, and stays as it is when sanitised again. */
  lemma JoinedIsSafe(segments: seq<string>)
    requires Clean(segments) && AllTame(segments) && NoDots(segments)
    ensures Safe(JoinSlash(segments)) && Sanitize(JoinSlash(segments), true) == JoinSlash(segments)
  {
    var r := JoinSlash(segments);
    SplitOfJoin(segments);
    JoinIsTame(segments);
    FilterNothing(segments);
    TameUnchanged(r);
    assert StripSlashes(r) == r;
  }

  lemma TameUnchanged(r: string)
    requires Tame(r)
    ensures ToSlashes(r) == r && !HasDotDot(r)
  {
  }

  lemma {:induction false} StripIsSuffix(s: string) returns (k: nat)
    ensures k <= |s| && StripSlashes(s) == s[k..]
    ensures AfterLastSlash(StripSlashes(s)) == AfterLastSlash(s)
  {
    if s != "" && s[0] == '/' {
      k := StripIsSuffix(s[1..]);
      assert s[1..][k..] == s[k + 1..];
      FindCharIs(s, '/', 0, 0);
      k := k + 1;
    } else {
      k := 0;
      assert s[0..] == s;
    }
  }

  lemma ConvertedIsTame(filename: string)
    requires !HasDotDot(ToSlashes(filename))
    ensures Tame(ToSlashes(filename)) && Tame(StripSlashes(ToSlashes(filename)))
  {
    var name := ToSlashes(filename);
    assert forall i :: 0 <= i < |name| ==> name[i] != '\\';
    assert Tame(name);
    hide Tame, HasDotDot, ToSlashes;
    var k := StripIsSuffix(name);
    TamePart(name, k, |name|);
    assert name[k..|name|] == name[k..];
  }

  lemma {:induction false} BaseFacts(s: string)
    requires Tame(s)
    ensures Tame(AfterLastSlash(s)) && '/' !in AfterLastSlash(s)
  {
    match FindChar(s, '/', 0) {
      case None =>
      case Some(k) =>
        TamePart(s, k + 1, |s|);
        BaseFacts(s[k + 1..]);
    }
  }

  /** In both modes every result is safe, and sanitising it again changes nothing. */
  lemma SafeAndIdempotent(filename: string, keepStructure: bool)
    ensures var r := Sanitize(filename, keepStructure);
            && Safe(r) && Sanitize(r, keepStructure) == r
            && (!keepStructure ==> '/' !in r)
  {
    hide Safe;
    var name := ToSlashes(filename);
    JoinedIsSafe([]);
    EmptyStaysEmpty();
    if !HasDotDot(name) {
      ConvertedIsTame(filename);
      var n := StripSlashes(name);
      if keepStructure {
        SplitFromIsClean(n, 0);
        SegmentsAreTame(n, 0);
        FilterFacts(SplitFrom(n, 0));
        JoinedIsSafe(WithoutDots(SplitFrom(n, 0)));
      } else {
        BaseFacts(n);
        var base := AfterLastSlash(n);
        if base != "" && base != "." {
          JoinedIsSafe([base]);
          TameUnchanged(base);
          assert StripSlashes(base) == base && AfterLastSlash(base) == base;
        }
      }
    }
  }

  lemma EmptyStaysEmpty()
    ensures Sanitize("", false) == ""
  {
  }

  // ---- the two modes together ----

  lemma {:induction false} LastSegment(n: string)
    requires AfterLastSlash(n) != "" && AfterLastSlash(n) != "."
    ensures var kept := WithoutDots(SplitFrom(n, 0)); kept != [] && kept[|kept| - 1] == AfterLastSlash(n)
    decreases |n|
  {
    hide SplitFrom, WithoutDots;
    match FindChar(n, '/', 0) {
      case None =>
        SplitLast(n, 0);
        WithoutDotsStep(n, []);
        JoinNothing();
        assert n[0..] == n && [n] + [] == [n];
      case Some(k) =>
        var rest := n[k + 1..];
        LastSegment(rest);
        SplitSuffix(n[..k + 1], rest, 0);
        assert n == n[..k + 1] + rest;
        SplitStep(n, 0, k);
        WithoutDotsStep(n[0..k], SplitFrom(n, k + 1));
    }
  }

  /** The last piece of the name as it was sent, after turning backslashes. */
  function RawLast(filename: string): string {
    AfterLastSlash(ToSlashes(filename))
  }

  /** File mode keeps the last segment of what directory mode keeps, whenever the name ends in a
      segment that names something; and it refuses exactly the other names and those with two dots. */
  lemma ModesAgree(filename: string)
    ensures Sanitize(filename, false) == ""
            <==> HasDotDot(ToSlashes(filename)) || RawLast(filename) == "" || RawLast(filename) == "."
    ensures Sanitize(filename, false) != "" ==>
              var segments := SplitFrom(Sanitize(filename, true), 0);
              segments != [] && Sanitize(filename, false) == segments[|segments| - 1] == RawLast(filename)
  {
    var name := ToSlashes(filename);
    var k := StripIsSuffix(name);
    if Sanitize(filename, false) != "" {
      var n := StripSlashes(name);
      LastSegment(n);
      ConvertedIsTame(filename);
      SplitFromIsClean(n, 0);
      SegmentsAreTame(n, 0);
      FilterFacts(SplitFrom(n, 0));
      SplitOfJoin(WithoutDots(SplitFrom(n, 0)));
    }
  }

  // ---- what directory mode keeps ----

  /** The same path, with backslashes for some of its slashes. */
  predicate Slanted(filename: string, path: string) {
    && |filename| == |path|
    && forall i :: 0 <= i < |path| ==> filename[i] == path[i] || (filename[i] == '\\' && path[i] == '/')
  }

  /** `written` is `kept` with the current directory named here and there. */
  ghost predicate Dotted(written: seq<string>, kept: seq<string>)
    decreases |written|
  {
    if written == [] then kept == []
    else
      || (written[0] == "." && Dotted(written[1..], kept))
      || (kept != [] && written[0] == kept[0] && Dotted(written[1..], kept[1..]))
  }

  /** One slash between any two segments. */
  function Between(n: nat): seq<nat> {
    seq(n, i => if i == 0 then 0 else 1)
  }

  lemma {:induction false} DotsDropped(written: seq<string>, kept: seq<string>)
    requires Dotted(written, kept) && NoDots(kept)
    ensures WithoutDots(written) == kept
    decreases |written|
  {
    if written != [] {
      if written[0] == "." && Dotted(written[1..], kept) {
        DotsDropped(written[1..], kept);
      } else {
        DotsDropped(written[1..], kept[1..]);
      }
    }
  }

  lemma {:induction false} DottedIsClean(written: seq<string>, kept: seq<string>)
    requires Dotted(written, kept) && Clean(kept)
    ensures Clean(written)
    decreases |written|
  {
    if written != [] {
      if written[0] == "." && Dotted(written[1..], kept) {
        DottedIsClean(written[1..], kept);
      } else {
        DottedIsClean(written[1..], kept[1..]);
      }
    }
  }

  function Ones(n: nat): seq<nat> { seq(n, _ => 1) }

  lemma {:induction false} OneSlashEach(segments: seq<string>)
    ensures Join(segments, Ones(|segments|), 0) == if segments == [] then "" else "/" + JoinSlash(segments)
  {
    assert Slashes(1) == "/" && Slashes(0) == "";
    if segments != [] {
      OneSlashEach(segments[1..]);
      assert Ones(|segments|)[1..] == Ones(|segments| - 1);
      if |segments| == 1 { assert segments[0] + "" == segments[0]; }
    }
  }

  lemma {:induction false} JoinedOnce(segments: seq<string>)
    ensures JoinSlash(segments) == Join(segments, Between(|segments|), 0)
  {
    assert Slashes(0) == "";
    if segments != [] {
      var rest := JoinSlash(segments[1..]);
      OneSlashEach(segments[1..]);
      assert Between(|segments|)[1..] == Ones(|segments| - 1) && Between(|segments|)[0] == 0;
      assert Join(segments, Between(|segments|), 0) == "" + segments[0] + Join(segments[1..], Ones(|segments| - 1), 0);
      hide Join;
      if |segments| == 1 {
        assert "" + segments[0] + "" == segments[0];
      } else {
        Assoc(segments[0], "/", rest);
        assert "" + segments[0] == segments[0];
      }
    }
  }

  lemma SlantedConverts(filename: string, path: string)
    requires Slanted(filename, path) && '\\' !in path
    ensures ToSlashes(filename) == path
  {
  }

  /** Splitting does not mind slashes in front. */
  lemma SplitStripped(path: string)
    ensures SplitFrom(StripSlashes(path), 0) == SplitFrom(path, 0)
  {
    if path != "" && path[0] == '/' {
      SplitStripped(path[1..]);
      SkipSlashes(1, path[1..]);
      assert path == Slashes(1) + path[1..];
      hide SplitFrom;
    }
  }

  /** Directory mode over every way to write a path, with either separator, any number of them, and the
      current directory anywhere: it is refused if two dots come together, and else all segments that name
      something are kept, in order, with one slash between them. */
  lemma KeepsStructure(filename: string, path: string, written: seq<string>, gaps: seq<nat>, trailing: nat,
                       kept: seq<string>)
    requires Slanted(filename, path) && '\\' !in path
    requires |gaps| == |written| && forall i :: 0 < i < |gaps| ==> gaps[i] >= 1
    requires path == Join(written, gaps, trailing)
    requires Dotted(written, kept) && Clean(kept) && NoDots(kept)
    ensures Sanitize(filename, true) == if HasDotDot(path) then "" else Join(kept, Between(|kept|), 0)
  {
    hide Slanted, Join, SplitFrom, HasDotDot, ToSlashes, JoinSlash, WithoutDots, StripSlashes, Dotted, Clean;
    SlantedConverts(filename, path);
    DottedIsClean(written, kept);
    SplitFromJoin(written, gaps, trailing);
    SplitStripped(path);
    DotsDropped(written, kept);
    JoinedOnce(kept);
  }
}
