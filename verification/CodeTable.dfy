/** The table of pick-up codes. The loop thread runs uploads and downloads one after the other, a
    sweeper thread removes what has expired. Each holds the lock only for single table operations;
    clock reads and file operations happen outside it. */
module CodeTable {
  import opened Numbers
  import opened Strings

  datatype Meta = Meta(code: string, storagePath: string, originalName: string, fileSize: nat, expireAt: int)

  // ---- the sections under the lock ----

  type Draw = n: nat | n < 1_000_000

  function Pow10(k: nat): nat { if k == 0 then 1 else 10 * Pow10(k - 1) }

  /** Decimal text padded with zeros to a width. */
  function Padded(n: nat, width: nat): string {
    if width == 0 then "" else Padded(n / 10, width - 1) + [('0' as int + n % 10) as char]
  }

  /** printf's %06d. */
  function SixDigits(n: Draw): string { Padded(n, 6) }

  /** Different draws give different codes. */
  lemma {:induction false} PaddedInjective(a: nat, b: nat, width: nat)
    requires a < Pow10(width) && b < Pow10(width) && Padded(a, width) == Padded(b, width)
    ensures a == b
  {
    if width > 0 {
      var s, t := Padded(a, width), Padded(b, width);
      var x, y := Padded(a / 10, width - 1), Padded(b / 10, width - 1);
      PaddedLength(a / 10, width - 1);
      PaddedLength(b / 10, width - 1);
      assert x == s[..|x|] == t[..|y|] == y;
      PaddedInjective(a / 10, b / 10, width - 1);
      assert s[|x|] as int - '0' as int == a % 10 && t[|y|] as int - '0' as int == b % 10;
    }
  }

  lemma {:induction false} PaddedLength(n: nat, width: nat)
    ensures |Padded(n, width)| == width
  {
    if width > 0 { PaddedLength(n / 10, width - 1); }
  }

  ghost function CodesBelow(n: nat): set<string>
    requires n <= 1_000_000
  {
    set d: Draw | 0 <= d < n :: SixDigits(d)
  }

  lemma {:induction false} CountCodes(n: nat)
    requires n <= 1_000_000
    ensures |CodesBelow(n)| == n
  {
    hide SixDigits;
    if n > 0 {
      CountCodes(n - 1);
      assert CodesBelow(n) == CodesBelow(n - 1) + {SixDigits(n - 1)};
      forall d: Draw | d < n - 1
        ensures SixDigits(d) != SixDigits(n - 1)
      {
        SixDigitsInjective(d, n - 1);
      }
    }
  }

  lemma SixDigitsInjective(a: Draw, b: Draw)
    ensures SixDigits(a) == SixDigits(b) ==> a == b
  {
    assert Pow10(6) == 1_000_000;
    if SixDigits(a) == SixDigits(b) { PaddedInjective(a, b, 6); }
  }

  /** While the table has fewer than a million entries some draw gives a free code. */
  lemma FreeCodeExists(codes: map<string, Meta>)
    requires |codes| < 1_000_000
    ensures exists d: Draw :: SixDigits(d) !in codes
  {
    hide SixDigits;
    CountCodes(1_000_000);
    if forall d: Draw :: SixDigits(d) in codes {
      Subset(CodesBelow(1_000_000), codes.Keys);
    }
  }

  lemma {:induction false} Subset<T>(a: set<T>, b: set<T>)
    requires a <= b
    ensures |a| <= |b|
    decreases |a|
  {
    if x :| x in a {
      Subset(a - {x}, b - {x});
    } else {
      assert a == {};
    }
  }

  /** The first drawn code that is not taken. */
  function FirstFree(draws: seq<Draw>, codes: map<string, Meta>): Option<string> {
    if draws == [] then None
    else if SixDigits(draws[0]) !in codes then Some(SixDigits(draws[0]))
    else FirstFree(draws[1..], codes)
  }

  /** Codes are drawn until one is free: what comes out is the first free one, and nothing if all are taken. */
  lemma {:induction false} FirstFreeIff(draws: seq<Draw>, codes: map<string, Meta>, i: nat)
    requires i <= |draws| && forall j :: 0 <= j < i ==> SixDigits(draws[j]) in codes
    ensures i == |draws| ==> FirstFree(draws, codes) == None
    ensures i < |draws| && SixDigits(draws[i]) !in codes ==> FirstFree(draws, codes) == Some(SixDigits(draws[i]))
    decreases |draws|
  {
    hide SixDigits;
    if i > 0 { FirstFreeIff(draws[1..], codes, i - 1); }
  }

  /** A code is six decimal digits that spell the number drawn. */
  lemma CodeFormat(n: Draw)
    ensures |SixDigits(n)| == 6 && AllDigits(SixDigits(n)) && Value(SixDigits(n)) == n
  {
    assert Pow10(6) == 1_000_000;
    PaddedValue(n, 6);
    PaddedLength(n, 6);
    hide Padded, Value;
  }

  lemma {:induction false} PaddedValue(n: nat, width: nat)
    requires n < Pow10(width)
    ensures AllDigits(Padded(n, width)) && Value(Padded(n, width)) == n
  {
    if width > 0 {
      PaddedValue(n / 10, width - 1);
      var s := Padded(n, width);
      assert s[..|s| - 1] == Padded(n / 10, width - 1);
    }
  }

  function Unexpired(codes: map<string, Meta>, now: int): map<string, Meta> {
    map k | k in codes && codes[k].expireAt >= now :: codes[k]
  }

  function Expired(codes: map<string, Meta>, now: int): set<string> {
    set k | k in codes && codes[k].expireAt < now
  }

  class Table {
    var codes: map<string, Meta>

    constructor ()
      ensures codes == map[]
    {
      codes := map[];
    }

    /** Draws until a code is free; None when the draws run out before. */
    method GenerateCode(draws: seq<Draw>) returns (code: Option<string>)
      ensures code == FirstFree(draws, codes)
      ensures code.Some? ==> code.value !in codes
    {
      hide SixDigits;
      var i := 0;
      while i < |draws|
        invariant 0 <= i <= |draws|
        invariant FirstFree(draws[i..], codes) == FirstFree(draws, codes)
      {
        var drawn := SixDigits(draws[i]);
        if drawn !in codes { return Some(drawn); }
        assert draws[i..][1..] == draws[i + 1..];
        i := i + 1;
      }
      return None;
    }

    method Insert(meta: Meta)
      modifies this
      ensures codes == old(codes)[meta.code := meta]
    {
      codes := codes[meta.code := meta];
    }

    method Erase(code: string)
      modifies this
      ensures codes == old(codes) - {code}
    {
      codes := codes - {code};
    }

    /** The sweeper's section: erases what has expired and collects where it is stored. */
    method CollectExpired(now: int) returns (paths: seq<string>, ghost removed: seq<string>)
      modifies this
      ensures codes == Unexpired(old(codes), now)
      ensures |removed| == |paths| && forall k :: k in removed <==> k in Expired(old(codes), now)
      ensures forall i :: 0 <= i < |removed| ==>
                removed[i] in old(codes) && paths[i] == old(codes)[removed[i]].storagePath
      ensures forall i, j :: 0 <= i < j < |removed| ==> removed[i] != removed[j]
    {
      paths, removed := [], [];
      var rest := codes.Keys;
      while exists k :: k in rest
        invariant rest <= codes.Keys <= old(codes).Keys
        invariant forall k :: k in codes ==> codes[k] == old(codes)[k]
        invariant forall k :: k in old(codes) && k !in rest ==> (k in codes <==> old(codes)[k].expireAt >= now)
        invariant forall k :: k in removed <==> k in old(codes) && k !in codes
        invariant |removed| == |paths|
        invariant forall i :: 0 <= i < |removed| ==>
                    removed[i] in old(codes) && paths[i] == old(codes)[removed[i]].storagePath
        invariant forall i, j :: 0 <= i < j < |removed| ==> removed[i] != removed[j]
        decreases |rest|
      {
        var k :| k in rest;
        rest := rest - {k};
        if codes[k].expireAt < now {
          paths, removed := paths + [codes[k].storagePath], removed + [k];
          codes := codes - {k};
        }
      }
    }
  }

  // ---- the two threads ----

  /** How far the loop thread is in an upload or a download. */
  datatype Phase =
    | Idle
    | Chosen(code: string)
    | Made(code: string)
    | Stored(code: string)
    | Found(code: string, meta: Meta)
    | Fresh(code: string, meta: Meta)
    | Stale(code: string, meta: Meta)
    | Unlinked(code: string, meta: Meta)
    | Cleared(code: string, meta: Meta)
    | Missing(code: string, meta: Meta)

  /** Every code has a directory of its own, with one payload in it. `pending` are the codes whose
      files the sweeper is still to delete. The last three fields are history: what was inserted, and
      what was seen expired or missing. */
  datatype State = State(
    codes: map<string, Meta>,
    dirs: set<string>,
    files: set<string>,
    phase: Phase,
    pending: set<string>,
    inserted: set<Meta>,
    expired: set<Meta>,
    missing: set<Meta>)

  datatype Action =
    | Choose(code: string)
    | MakeDir
    | Store
    | StoreFails
    | Insert(storagePath: string, originalName: string, fileSize: nat, expireAt: int)
    | Lookup(code: string)
    | CheckTime(now: int)
    | Unlink
    | RemoveDir
    | Stat
    | Erase
    | Scan(now: int)
    | SweepUnlink(code: string)
    | SweepRemove(code: string)
    | Vanish(code: string)

  function Start(dirs: set<string>, files: set<string>): State {
    State(map[], dirs, files, Idle, {}, {}, {}, {})
  }

  predicate Enabled(s: State, a: Action) {
    match a
    case Choose(code) => s.phase.Idle? && code !in s.codes
    case MakeDir => s.phase.Chosen?
    case Store => s.phase.Made?
    case StoreFails => s.phase.Made?
    case Insert(_, _, _, _) => s.phase.Stored?
    case Lookup(_) => s.phase.Idle?
    case CheckTime(_) => s.phase.Found?
    case Unlink => s.phase.Stale?
    case RemoveDir => s.phase.Unlinked?
    case Stat => s.phase.Fresh?
    case Erase => s.phase.Cleared? || s.phase.Missing?
    case Scan(_) => s.pending == {}
    case SweepUnlink(code) => code in s.pending
    case SweepRemove(code) => code in s.pending
    case Vanish(_) => true
  }

  function Next(s: State, a: Action): State
    requires Enabled(s, a)
  {
    match a
    case Choose(code) => s.(phase := Chosen(code))
    case MakeDir =>
      if s.phase.code in s.dirs then s.(phase := Idle)
      else s.(dirs := s.dirs + {s.phase.code}, phase := Made(s.phase.code))
    case Store => s.(files := s.files + {s.phase.code}, phase := Stored(s.phase.code))
    case StoreFails => s.(dirs := s.dirs - {s.phase.code}, files := s.files - {s.phase.code}, phase := Idle)
    case Insert(path, name, size, expireAt) =>
      var meta := Meta(s.phase.code, path, name, size, expireAt);
      s.(codes := s.codes[meta.code := meta], inserted := s.inserted + {meta}, phase := Idle)
    case Lookup(code) => if code in s.codes then s.(phase := Found(code, s.codes[code])) else s
    case CheckTime(now) =>
      var meta := s.phase.meta;
      if meta.expireAt < now then s.(phase := Stale(s.phase.code, meta), expired := s.expired + {meta})
      else s.(phase := Fresh(s.phase.code, meta))
    case Unlink => s.(files := s.files - {s.phase.code}, phase := Unlinked(s.phase.code, s.phase.meta))
    case RemoveDir =>
      var code := s.phase.code;
      s.(dirs := s.dirs - {code}, files := s.files - {code}, phase := Cleared(code, s.phase.meta))
    case Stat =>
      if s.phase.code in s.files then s.(phase := Idle)
      else s.(phase := Missing(s.phase.code, s.phase.meta), missing := s.missing + {s.phase.meta})
    case Erase => s.(codes := s.codes - {s.phase.code}, phase := Idle)
    case Scan(now) =>
      var gone := Expired(s.codes, now);
      s.(codes := Unexpired(s.codes, now), pending := gone, expired := s.expired + set k | k in gone :: s.codes[k])
    case SweepUnlink(code) => s.(files := s.files - {code})
    case SweepRemove(code) => s.(dirs := s.dirs - {code}, files := s.files - {code}, pending := s.pending - {code})
    case Vanish(code) => s.(files := s.files - {code})
  }

  /** The state after some interleaving of both threads. */
  ghost predicate Reaches(s: State, actions: seq<Action>, r: State)
    decreases |actions|
  {
    if actions == [] then s == r
    else Enabled(s, actions[0]) && Reaches(Next(s, actions[0]), actions[1..], r)
  }

  predicate OfLoop(a: Action) {
    !a.Scan? && !a.SweepUnlink? && !a.SweepRemove? && !a.Vanish?
  }

  /** The loop thread has one way to go on, and always one: between requests it starts an upload or looks a
      code up, a payload is stored or fails to be, and everything else is one step after the other. */
  lemma OneWayOn(s: State, a: Action, b: Action)
    requires OfLoop(a) && OfLoop(b) && Enabled(s, a) && Enabled(s, b) && !s.phase.Idle? && !s.phase.Made?
    ensures a.MakeDir? == b.MakeDir? && a.Insert? == b.Insert? && a.CheckTime? == b.CheckTime?
    ensures a.Unlink? == b.Unlink? && a.RemoveDir? == b.RemoveDir? && a.Stat? == b.Stat? && a.Erase? == b.Erase?
    ensures a.MakeDir? || a.Insert? || a.CheckTime? || a.Unlink? || a.RemoveDir? || a.Stat? || a.Erase?
  {
  }

  lemma AlwaysOn(s: State)
    ensures exists a :: OfLoop(a) && Enabled(s, a)
    ensures s.phase.Made? ==> Enabled(s, Store) && Enabled(s, StoreFails)
  {
    var next := match s.phase
      case Idle => Lookup("")
      case Chosen(_) => MakeDir
      case Made(_) => Store
      case Stored(_) => Insert("", "", 0, 0)
      case Found(_, _) => CheckTime(0)
      case Fresh(_, _) => Stat
      case Stale(_, _) => Unlink
      case Unlinked(_, _) => RemoveDir
      case Cleared(_, _) => Erase
      case Missing(_, _) => Erase;
    assert OfLoop(next) && Enabled(s, next);
  }

  // ---- what every interleaving keeps ----

  predicate Uploading(p: Phase) { p.Chosen? || p.Made? || p.Stored? }

  predicate Downloading(p: Phase) { !p.Idle? && !Uploading(p) }

  /** Every key is its entry's code, and an upload's code is free until the upload inserts it. */
  ghost predicate Keyed(s: State) {
    && (forall k :: k in s.codes ==> s.codes[k].code == k && s.codes[k] in s.inserted)
    && (Uploading(s.phase) ==> s.phase.code !in s.codes)
  }

  /** A download's entry is still the one in the table, if there is one; and before it erases it, it
      has seen it expired or missing. */
  ghost predicate Watched(s: State) {
    Downloading(s.phase) ==>
      && s.phase.meta.code == s.phase.code
      && (s.phase.code in s.codes ==> s.codes[s.phase.code] == s.phase.meta)
      && (s.phase.Stale? || s.phase.Unlinked? || s.phase.Cleared? ==> s.phase.meta in s.expired)
      && (s.phase.Missing? ==> s.phase.meta in s.missing)
      && (s.phase.Cleared? ==> s.phase.code !in s.dirs)
  }

  predicate Present(s: State, m: Meta) { m.code in s.codes && s.codes[m.code] == m }

  /** What was inserted is in the table, or was seen expired or missing. */
  ghost predicate Accounted(s: State) {
    forall m :: m in s.inserted ==> Present(s, m) || m in s.expired || m in s.missing
  }

  ghost predicate Inv(s: State) { Keyed(s) && Watched(s) && Accounted(s) }

  lemma StepKeepsKeyed(s: State, a: Action)
    requires Enabled(s, a) && Keyed(s)
    ensures Keyed(Next(s, a))
  {
    hide Expired;
  }

  lemma StepKeepsWatched(s: State, a: Action)
    requires Enabled(s, a) && Keyed(s) && Watched(s)
    ensures Watched(Next(s, a))
  {
  }

  lemma StepKeepsAccounted(s: State, a: Action)
    requires Enabled(s, a) && Inv(s)
    ensures Accounted(Next(s, a))
  {
  }

  lemma StepKeepsInv(s: State, a: Action)
    requires Enabled(s, a) && Inv(s)
    ensures Inv(Next(s, a))
  {
    StepKeepsKeyed(s, a);
    StepKeepsWatched(s, a);
    StepKeepsAccounted(s, a);
    hide Next, Keyed, Watched, Accounted;
  }

  lemma {:induction false} ReachableInv(s: State, actions: seq<Action>, r: State)
    requires Inv(s) && Reaches(s, actions, r)
    ensures Inv(r)
    decreases |actions|
  {
    hide Inv, Enabled, Next;
    if actions != [] {
      StepKeepsInv(s, actions[0]);
      ReachableInv(Next(s, actions[0]), actions[1..], r);
    }
  }

  // ---- what every run guarantees ----

  /** The insert of an upload never overwrites an entry, though other steps come between the check
      and the insert; and every key is the code of its entry. */
  lemma InsertNeverOverwrites(dirs: set<string>, files: set<string>, actions: seq<Action>, r: State, insert: Action)
    requires Reaches(Start(dirs, files), actions, r)
    ensures forall k :: k in r.codes ==> r.codes[k].code == k
    ensures insert.Insert? && Enabled(r, insert) ==>
              && r.phase.code !in r.codes
              && Next(r, insert).codes - {r.phase.code} == r.codes
  {
    ReachableInv(Start(dirs, files), actions, r);
  }

  /** An entry is gone only if it was seen expired or missing, whatever the interleaving. */
  lemma LeavesOnlySeen(dirs: set<string>, files: set<string>, actions: seq<Action>, r: State, m: Meta)
    requires Reaches(Start(dirs, files), actions, r) && m in r.inserted
    ensures Present(r, m) || m in r.expired || m in r.missing
    ensures m in r.expired ==> exists i :: 0 <= i < |actions| && SeesExpired(actions[i], m)
    ensures m in r.missing ==>
              exists i, t :: 0 <= i < |actions| && Reaches(Start(dirs, files), actions[..i], t)
                             && SeesMissing(t, actions[i], m)
  {
    ReachableInv(Start(dirs, files), actions, r);
    if m in r.expired { ExpiredWasSeen(Start(dirs, files), actions, r, m); }
    if m in r.missing { var i, t := MissingWasSeen(Start(dirs, files), actions, r, m); }
  }

  /** A download looks for the file of its entry and does not find it. */
  predicate SeesMissing(s: State, a: Action, m: Meta) {
    a.Stat? && s.phase.Fresh? && s.phase.meta == m && s.phase.code !in s.files
  }

  lemma {:induction false} MissingWasSeen(s: State, actions: seq<Action>, r: State, m: Meta) returns (i: nat, t: State)
    requires Reaches(s, actions, r) && m in r.missing && m !in s.missing
    ensures i < |actions| && Reaches(s, actions[..i], t) && SeesMissing(t, actions[i], m)
    decreases |actions|
  {
    var next := Next(s, actions[0]);
    if m in next.missing {
      i, t := 0, s;
    } else {
      hide Next, Enabled;
      i, t := MissingWasSeen(next, actions[1..], r, m);
      assert actions[..i + 1][1..] == actions[1..][..i];
      i := i + 1;
    }
  }

  /** The checks of a download and of an upload: an entry past its time is removed with its file, one whose file is
      gone is removed, and nothing happens to any other; a directory that is there already refuses the upload,
      and a payload that cannot be stored leaves nothing behind. */
  lemma ChecksDecide(s: State, now: int)
    ensures Enabled(s, CheckTime(now)) ==>
              var r := Next(s, CheckTime(now));
              && r.phase == (if s.phase.meta.expireAt < now then Stale(s.phase.code, s.phase.meta)
                             else Fresh(s.phase.code, s.phase.meta))
              && r.codes == s.codes && r.files == s.files && r.dirs == s.dirs
    ensures Enabled(s, Stat) ==>
              var r := Next(s, Stat);
              && r.phase == (if s.phase.code in s.files then Idle else Missing(s.phase.code, s.phase.meta))
              && r.codes == s.codes && r.files == s.files && r.dirs == s.dirs
    ensures Enabled(s, MakeDir) ==>
              Next(s, MakeDir).phase == if s.phase.code in s.dirs then Idle else Made(s.phase.code)
    ensures Enabled(s, StoreFails) ==>
              Next(s, StoreFails)
              == s.(phase := Idle, dirs := s.dirs - {s.phase.code}, files := s.files - {s.phase.code})
    ensures Enabled(s, Erase) ==> Next(s, Erase).codes == s.codes - {s.phase.code} && Next(s, Erase).phase == Idle
  {
  }

  predicate SeesExpired(a: Action, m: Meta) {
    (a.CheckTime? || a.Scan?) && m.expireAt < a.now
  }

  lemma {:induction false} ExpiredWasSeen(s: State, actions: seq<Action>, r: State, m: Meta)
    requires Reaches(s, actions, r) && m in r.expired && m !in s.expired
    ensures exists i :: 0 <= i < |actions| && SeesExpired(actions[i], m)
    decreases |actions|
  {
    var t := Next(s, actions[0]);
    if m in t.expired {
      assert SeesExpired(actions[0], m);
    } else {
      ExpiredWasSeen(t, actions[1..], r, m);
      var i :| 0 <= i < |actions[1..]| && SeesExpired(actions[1..][i], m);
      assert SeesExpired(actions[i + 1], m);
    }
  }

  /** An erase by a download removes the entry it looked up and no other: either that entry is still
      in the table, or nothing is. */
  lemma EraseHitsItsOwn(dirs: set<string>, files: set<string>, actions: seq<Action>, r: State)
    requires Reaches(Start(dirs, files), actions, r) && Enabled(r, Erase)
    ensures r.phase.code in r.codes ==> r.codes[r.phase.code] == r.phase.meta
  {
    ReachableInv(Start(dirs, files), actions, r);
  }

  // ---- files of live entries ----

  /** A code whose files an upload has made or the table refers to. */
  predicate Live(s: State, code: string) {
    code in s.codes || ((s.phase.Made? || s.phase.Stored?) && s.phase.code == code)
  }

  /** The sweeper is about to delete no live entry's files. */
  ghost predicate Apart(s: State) {
    && (forall c :: c in s.pending ==> c in s.dirs && !Live(s, c))
    && (forall c :: Live(s, c) ==> c in s.dirs || (s.phase.Cleared? && s.phase.code == c))
  }

  /** Both threads are dealing with the same expired code: the loop thread has removed its directory
      and not yet erased it, and the sweeper has it still to delete. */
  predicate Contested(s: State) {
    s.phase.Cleared? && s.phase.code in s.pending
  }

  ghost predicate Uncontested(s: State, actions: seq<Action>)
    decreases |actions|
  {
    !Contested(s)
    && (actions != [] ==> Enabled(s, actions[0]) && Uncontested(Next(s, actions[0]), actions[1..]))
  }

  lemma StepKeepsApart(s: State, a: Action)
    requires Enabled(s, a) && Inv(s) && Apart(s) && !Contested(Next(s, a))
    ensures Apart(Next(s, a))
  {
  }

  lemma {:induction false} UncontestedIsApart(s: State, actions: seq<Action>, r: State)
    requires Inv(s) && Apart(s) && Uncontested(s, actions) && Reaches(s, actions, r)
    ensures Apart(r)
    decreases |actions|
  {
    hide Inv, Next, Live, Contested, Apart;
    if actions != [] {
      StepKeepsInv(s, actions[0]);
      StepKeepsApart(s, actions[0]);
      UncontestedIsApart(Next(s, actions[0]), actions[1..], r);
    }
  }

  /** The sweeper deletes no file of a live entry in a run that is never contested, whatever is left on
      the disk at the start. */
  lemma SafeUnlessContested(dirs: set<string>, files: set<string>, actions: seq<Action>, r: State, code: string)
    requires Uncontested(Start(dirs, files), actions) && Reaches(Start(dirs, files), actions, r)
    ensures Enabled(r, SweepUnlink(code)) || Enabled(r, SweepRemove(code)) ==> !Live(r, code)
  {
    var start := Start(dirs, files);
    assert Inv(start) && Apart(start);
    hide Inv, Live;
    UncontestedIsApart(start, actions, r);
  }

  /** An upload that happens to draw the code m.code, up to its insert. */
  function UploadOf(m: Meta): seq<Action> {
    [Choose(m.code), MakeDir, Store, Insert(m.storagePath, m.originalName, m.fileSize, m.expireAt)]
  }

  function Uploaded(s: State, m: Meta): State {
    s.(codes := s.codes[m.code := m], dirs := s.dirs + {m.code}, files := s.files + {m.code},
       inserted := s.inserted + {m}, phase := Idle)
  }

  lemma OneStep(s: State, a: Action, actions: seq<Action>, r: State)
    requires Enabled(s, a) && Reaches(Next(s, a), actions, r)
    ensures Reaches(s, [a] + actions, r)
  {
  }

  lemma UploadReaches(s: State, m: Meta, after: seq<Action>, r: State)
    requires s.phase.Idle? && m.code !in s.codes && m.code !in s.dirs && Reaches(Uploaded(s, m), after, r)
    ensures Reaches(s, UploadOf(m) + after, r)
  {
    hide Reaches;
    var s1 := Next(s, Choose(m.code));
    var s2 := Next(s1, MakeDir);
    var s3 := Next(s2, Store);
    var insert := Insert(m.storagePath, m.originalName, m.fileSize, m.expireAt);
    assert Next(s3, insert) == Uploaded(s, m);
    OneStep(s3, insert, after, r);
    OneStep(s2, Store, [insert] + after, r);
    OneStep(s1, MakeDir, [Store] + ([insert] + after), r);
    OneStep(s, Choose(m.code), [MakeDir] + ([Store] + ([insert] + after)), r);
    assert UploadOf(m) + after == [Choose(m.code)] + ([MakeDir] + ([Store] + ([insert] + after)));
  }

  /** And that is exact: from a contested state the threads can go on so that the sweeper deletes the
      files of a new entry, which nobody has seen expired or missing. */
  lemma ContestedLoses(s: State, m: Meta)
    requires Inv(s) && Contested(s) && m.code == s.phase.code
    ensures exists actions, r ::
              && Reaches(s, actions, r) && Present(r, m) && m.code !in r.files
              && r.expired == s.expired && r.missing == s.missing
  {
    var s1 := Next(s, Erase);
    var s2 := Uploaded(s1, m);
    var r := Next(s2, SweepRemove(m.code));
    assert m.code !in s.dirs;
    hide Inv, Uploaded, Next;
    OneStep(s2, SweepRemove(m.code), [], r);
    UploadReaches(s1, m, [SweepRemove(m.code)] + [], r);
    OneStep(s, Erase, UploadOf(m) + ([SweepRemove(m.code)] + []), r);
  }

  /** Such a state is within reach of a fresh server: a download sees a code expired and deletes its
      files while the sweeper collects the same code. */
  lemma ContestedIsReachable(m: Meta)
    ensures exists actions, r :: Reaches(Start({}, {}), actions, r) && Contested(r) && r.phase.code == m.code
  {
    var s := Start({}, {});
    var now := m.expireAt + 1;
    var s1 := Uploaded(s, m);
    var s2 := Next(s1, Lookup(m.code));
    var s3 := Next(s2, CheckTime(now));
    var s4 := Next(s3, Unlink);
    var s5 := Next(s4, Scan(now));
    var r := Next(s5, RemoveDir);
    assert Contested(r);
    hide Reaches, Next, Uploaded;
    assert Reaches(r, [], r) by { NoStep(r); }
    OneStep(s5, RemoveDir, [], r);
    OneStep(s4, Scan(now), [RemoveDir] + [], r);
    OneStep(s3, Unlink, [Scan(now)] + ([RemoveDir] + []), r);
    OneStep(s2, CheckTime(now), [Unlink] + ([Scan(now)] + ([RemoveDir] + [])), r);
    var after := [CheckTime(now)] + ([Unlink] + ([Scan(now)] + ([RemoveDir] + [])));
    OneStep(s1, Lookup(m.code), after, r);
    UploadReaches(s, m, [Lookup(m.code)] + after, r);
  }

  lemma NoStep(s: State)
    ensures Reaches(s, [], s)
  {
  }

  // ---- codes that can never be used again ----

  /** The directory of a code is there, and nobody will ever remove it: neither the table nor the sweeper has
      the code, no upload has made the directory, and no download is on the way to clear it. */
  predicate Orphan(s: State, c: string) {
    && c in s.dirs && c !in s.codes && c !in s.pending
    && (s.phase.Made? || s.phase.Stored? || s.phase.Found? || s.phase.Stale? || s.phase.Unlinked? ==>
          s.phase.code != c)
  }

  /** While a download has a code whose directory is there, the table or the sweeper has it too; and a file that
      was unlinked is gone. */
  ghost predicate Tidy(s: State) {
    && (Downloading(s.phase) && s.phase.code in s.dirs ==> s.phase.code in s.codes || s.phase.code in s.pending)
    && (s.phase.Unlinked? ==> s.phase.code !in s.files)
  }

  /** When a code becomes an orphan: in the step in which a download erases an entry whose file it did not find,
      and in no other; and then for ever. */
  lemma OrphanStepIff(s: State, a: Action, c: string)
    requires Enabled(s, a) && Inv(s) && Tidy(s)
    ensures Tidy(Next(s, a))
    ensures Orphan(Next(s, a), c)
            <==> Orphan(s, c)
                 || (a.Erase? && s.phase.Missing? && s.phase.code == c && c in s.dirs && c !in s.pending)
  {
  }

  lemma {:induction false} OrphanStays(s: State, actions: seq<Action>, r: State, c: string)
    requires Orphan(s, c) && Reaches(s, actions, r)
    ensures Orphan(r, c)
    decreases |actions|
  {
    hide Orphan, Enabled, Next;
    if actions != [] {
      OrphanStep(s, actions[0], c);
      OrphanStays(Next(s, actions[0]), actions[1..], r, c);
    }
  }

  lemma OrphanStep(s: State, a: Action, c: string)
    requires Enabled(s, a) && Orphan(s, c)
    ensures Orphan(Next(s, a), c)
  {
  }

  lemma {:induction false} ReachesConcat(s: State, x: seq<Action>, t: State, y: seq<Action>, r: State)
    requires Reaches(s, x, t) && Reaches(t, y, r)
    ensures Reaches(s, x + y, r)
    decreases |x|
  {
    if x == [] {
      assert x + y == y;
    } else {
      hide Enabled, Next;
      ReachesConcat(Next(s, x[0]), x[1..], t, y, r);
      assert (x + y)[1..] == x[1..] + y;
    }
  }

  /** The sweeper finishes what it has collected. */
  lemma {:induction false} SweepAll(s: State) returns (actions: seq<Action>, r: State)
    ensures Reaches(s, actions, r) && r == s.(dirs := s.dirs - s.pending, files := s.files - s.pending, pending := {})
    decreases |s.pending|
  {
    if c :| c in s.pending {
      var next := Next(s, SweepRemove(c));
      hide Reaches;
      actions, r := SweepAll(next);
      assert r.dirs == s.dirs - s.pending && r.files == s.files - s.pending;
      OneStep(s, SweepRemove(c), actions, r);
      actions := [SweepRemove(c)] + actions;
    } else {
      assert s.pending == {};
      assert s.dirs - {} == s.dirs && s.files - {} == s.files;
      actions, r := [], s;
    }
  }

  /** An entry of the table expires, is collected, and its directory is removed. */
  lemma TabledIsFreed(s: State, c: string) returns (actions: seq<Action>, r: State)
    requires c in s.codes
    ensures Reaches(s, actions, r) && c !in r.dirs
  {
    hide Reaches;
    var x, t := SweepAll(s);
    var late := Scan(s.codes[c].expireAt + 1);
    var scanned := Next(t, late);
    assert c in scanned.pending;
    var y, u := SweepAll(scanned);
    OneStep(t, late, y, u);
    ReachesConcat(s, x, t, [late] + y, u);
    actions, r := x + ([late] + y), u;
  }

  /** Every other code whose directory is there can be free again. */
  lemma HeldIsFreed(s: State, c: string) returns (actions: seq<Action>, r: State)
    requires !Orphan(s, c)
    ensures Reaches(s, actions, r) && c !in r.dirs
  {
    if c !in s.dirs {
      actions, r := [], s;
    } else if c in s.codes {
      actions, r := TabledIsFreed(s, c);
    } else if c in s.pending {
      actions, r := SweepAll(s);
    } else {
      actions, r := LoopFrees(s, c);
    }
  }

  lemma LoopFrees(s: State, c: string) returns (actions: seq<Action>, r: State)
    requires s.phase.Made? || s.phase.Stored? || s.phase.Found? || s.phase.Stale? || s.phase.Unlinked?
    requires s.phase.code == c
    ensures Reaches(s, actions, r) && c !in r.dirs
    decreases if s.phase.Found? then 3 else if s.phase.Stale? then 2 else 1
  {
    match s.phase {
      case Made(_) =>
        r := Next(s, StoreFails);
        OneStep(s, StoreFails, [], r);
        actions := [StoreFails] + [];
      case Stored(_) =>
        var insert := Insert("", "", 0, 0);
        var x;
        x, r := TabledIsFreed(Next(s, insert), c);
        OneStep(s, insert, x, r);
        actions := [insert] + x;
      case Found(_, meta) =>
        var check := CheckTime(meta.expireAt + 1);
        var x;
        x, r := LoopFrees(Next(s, check), c);
        OneStep(s, check, x, r);
        actions := [check] + x;
      case Stale(_, _) =>
        var x;
        x, r := LoopFrees(Next(s, Unlink), c);
        OneStep(s, Unlink, x, r);
        actions := [Unlink] + x;
      case Unlinked(_, _) =>
        r := Next(s, RemoveDir);
        OneStep(s, RemoveDir, [], r);
        actions := [RemoveDir] + [];
    }
  }

  /** Exactly which codes are lost: whatever happens from here on, the directory of the code stays, so that every
      upload that draws the code fails and it never gets into the table, if and only if the code is an orphan. */
  lemma LostIff(s: State, c: string)
    ensures (forall actions, r :: Reaches(s, actions, r) ==> c in r.dirs && c !in r.codes) <==> Orphan(s, c)
  {
    hide Orphan;
    if Orphan(s, c) {
      forall actions, r | Reaches(s, actions, r) ensures c in r.dirs && c !in r.codes {
        OrphanStays(s, actions, r, c);
        OrphanHasDir(r, c);
      }
    } else {
      var actions, r := HeldIsFreed(s, c);
      assert Reaches(s, actions, r);
    }
  }

  lemma OrphanHasDir(s: State, c: string)
    requires Orphan(s, c)
    ensures c in s.dirs && c !in s.codes
  {
  }

  /** A server that starts with directories of an earlier one has lost their codes. A server that starts with none
      loses one when a file vanishes and somebody asks for it. */
  lemma OrphansHappen(dirs: set<string>, files: set<string>, c: string, m: Meta)
    requires m.code == c
    ensures c in dirs ==> Orphan(Start(dirs, files), c)
    ensures exists actions, r :: Reaches(Start({}, {}), actions, r) && Orphan(r, c)
  {
    var s := Start({}, {});
    var up := Uploaded(s, m);
    var gone := Next(up, Vanish(c));
    var found := Next(gone, Lookup(c));
    var checked := Next(found, CheckTime(m.expireAt));
    var missing := Next(checked, Stat);
    var r := Next(missing, Erase);
    assert checked.phase == Fresh(c, m) && missing.phase == Missing(c, m);
    assert Orphan(r, c);
    hide Orphan;
    OneStep(missing, Erase, [], r);
    OneStep(checked, Stat, [Erase] + [], r);
    OneStep(found, CheckTime(m.expireAt), [Stat] + ([Erase] + []), r);
    OneStep(gone, Lookup(c), [CheckTime(m.expireAt)] + ([Stat] + ([Erase] + [])), r);
    OneStep(up, Vanish(c), [Lookup(c)] + ([CheckTime(m.expireAt)] + ([Stat] + ([Erase] + []))), r);
    UploadReaches(s, m, [Vanish(c)] + ([Lookup(c)] + ([CheckTime(m.expireAt)] + ([Stat] + ([Erase] + [])))), r);
  }

  /** What the sweeper, a fault, and a download that clears an expired entry do to the disk. */
  lemma DiskSteps(s: State, c: string)
    ensures c in s.pending ==>
              && Next(s, SweepUnlink(c)) == s.(files := s.files - {c})
              && Next(s, SweepRemove(c)).dirs == s.dirs - {c} && Next(s, SweepRemove(c)).files == s.files - {c}
    ensures Next(s, Vanish(c)) == s.(files := s.files - {c})
    ensures Enabled(s, RemoveDir) ==>
              && Next(s, RemoveDir).dirs == s.dirs - {s.phase.code}
              && Next(s, RemoveDir).files == s.files - {s.phase.code}
  {
  }
}
