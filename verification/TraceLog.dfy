/**
 * The driver's bounded trace log: one active file and R older generations. The disk is a map from
 * paths to contents, and every operation on it may fail. Whatever fails, what is on disk is always
 * the end of what was ever written.
 */
module TraceLog {
  import opened Bytes
  import opened Collections

  const DWORD_MAX: int := 0xFFFF_FFFF

  type Disk = map<string, seq<Byte>>

  // ----- Generation names --------------------------------------------------------------------

  function DigitChar(d: int): (c: char)
    requires 0 <= d < 10
  {
    '0' + d as char
  }

  function Decimal(n: nat): (text: string)
    ensures text != []
  {
    if n < 10 then [DigitChar(n)] else Decimal(n / 10) + [DigitChar(n % 10)]
  }

  function RotatedPath(path: string, generation: nat): (name: string)
    ensures |name| > |path| && name[..|path|] == path && name[|path|] == '.'
  {
    path + ['.'] + Decimal(generation)
  }

  /** Generation 0 is the active file. */
  function Name(path: string, generation: nat): string {
    if generation == 0 then path else RotatedPath(path, generation)
  }

  lemma {:induction false} DecimalInjective(m: nat, n: nat)
    requires Decimal(m) == Decimal(n)
    ensures m == n
    decreases m
  {
    var dm, dn := Decimal(m), Decimal(n);
    assert dm[|dm| - 1] == DigitChar(m % 10) && dn[|dn| - 1] == DigitChar(n % 10);
    if m >= 10 && n >= 10 {
      assert dm[..|dm| - 1] == Decimal(m / 10) && dn[..|dn| - 1] == Decimal(n / 10);
      DecimalInjective(m / 10, n / 10);
    }
  }

  /** Different generations are different files, so renaming one never names another. */
  lemma NamesInjective(path: string, m: nat, n: nat)
    requires Name(path, m) == Name(path, n)
    ensures m == n
  {
    if m != 0 && n != 0 {
      assert RotatedPath(path, m)[|path| + 1..] == Decimal(m);
      assert RotatedPath(path, n)[|path| + 1..] == Decimal(n);
      DecimalInjective(m, n);
    }
  }

  /** The number a text of decimal digits spells. */
  function Value(digits: string): int
    decreases |digits|
  {
    if digits == "" then 0
    else 10 * Value(digits[..|digits| - 1]) + (digits[|digits| - 1] as int - '0' as int)
  }

  /** A generation is written in decimal digits, without leading zeros. */
  lemma {:induction false} DecimalSpells(n: nat)
    ensures Value(Decimal(n)) == n
    ensures forall i :: 0 <= i < |Decimal(n)| ==> '0' <= Decimal(n)[i] <= '9'
    ensures n > 0 ==> Decimal(n)[0] != '0'
    decreases n
  {
    var digits := Decimal(n);
    assert digits[|digits| - 1] as int - '0' as int == n % 10;
    if n >= 10 {
      DecimalSpells(n / 10);
      assert digits[..|digits| - 1] == Decimal(n / 10);
      assert digits[0] == Decimal(n / 10)[0];
    } else {
      assert digits[..|digits| - 1] == "" && Value("") == 0;
    }
  }

  // ----- What is retained --------------------------------------------------------------------

  function Content(disk: Disk, path: string, generation: nat): seq<Byte> {
    if Name(path, generation) in disk then disk[Name(path, generation)] else []
  }

  predicate Present(disk: Disk, path: string, generation: nat) {
    Name(path, generation) in disk
  }

  /** The generations from `oldest` down to the active file, one after the other. */
  function Kept(disk: Disk, path: string, oldest: int): seq<Byte>
    decreases oldest + 1
  {
    if oldest < 0 then [] else Content(disk, path, oldest) + Kept(disk, path, oldest - 1)
  }

  ghost predicate Suffix(s: seq<Byte>, whole: seq<Byte>) {
    |s| <= |whole| && whole[|whole| - |s|..] == s
  }

  lemma SuffixTransitive(a: seq<Byte>, b: seq<Byte>, c: seq<Byte>)
    requires Suffix(a, b) && Suffix(b, c)
    ensures Suffix(a, c)
  {
    assert b[|b| - |a|..] == c[|c| - |b|..][|b| - |a|..] == c[|c| - |a|..];
  }

  lemma SuffixGrows(a: seq<Byte>, b: seq<Byte>, more: seq<Byte>)
    requires Suffix(a, b)
    ensures Suffix(a + more, b + more)
  {
    assert (b + more)[|b| - |a|..] == b[|b| - |a|..] + more;
  }

  /** The same content and presence of one generation on two disks. */
  ghost predicate Same(a: Disk, b: Disk, path: string, m: nat, n: nat) {
    Present(a, path, m) == Present(b, path, n) && Content(a, path, m) == Content(b, path, n)
  }

  /** Generation g now holds what the one before it held. */
  ghost predicate MovedUp(after: Disk, before: Disk, path: string, g: int) {
    g > 0 && Same(after, before, path, g, g - 1)
  }

  ghost predicate Unmoved(after: Disk, before: Disk, path: string, g: int) {
    g >= 0 && Same(after, before, path, g, g)
  }

  /**
   * Rotation has come down to generation `hole`: everything above it has moved up by one, the oldest
   * is gone, nothing is at `hole`, and everything below is where it was.
   */
  ghost predicate Rotated(before: Disk, after: Disk, path: string, retained: nat, hole: nat) {
    && hole <= retained
    && (forall g :: hole < g <= retained ==> MovedUp(after, before, path, g))
    && !Present(after, path, hole)
    && (forall g :: 0 <= g < hole ==> Unmoved(after, before, path, g))
  }

  lemma {:induction false} KeptAbove(before: Disk, after: Disk, path: string, retained: nat, hole: nat, g: int)
    requires Rotated(before, after, path, retained, hole) && -1 <= g <= retained
    ensures Kept(after, path, g) == if g < hole then Kept(before, path, g) else Kept(before, path, g - 1)
    decreases g
  {
    if g >= 0 {
      KeptAbove(before, after, path, retained, hole, g - 1);
      if g < hole {
        assert Unmoved(after, before, path, g);
      } else if g > hole {
        assert MovedUp(after, before, path, g);
      }
    }
  }

  /** However far a rotation got, exactly the oldest generation is lost. */
  lemma RotationDropsOldest(before: Disk, after: Disk, path: string, retained: nat, hole: nat)
    requires Rotated(before, after, path, retained, hole)
    ensures Kept(after, path, retained) == Kept(before, path, retained - 1)
    ensures Suffix(Kept(after, path, retained), Kept(before, path, retained))
  {
    KeptAbove(before, after, path, retained, hole, retained);
    assert Kept(before, path, retained) == Content(before, path, retained) + Kept(before, path, retained - 1);
  }

  // ----- Sizes -------------------------------------------------------------------------------

  /** An empty file takes anything. */
  predicate Fits(currentSize: nat, incomingSize: nat, maxSize: nat) {
    currentSize == 0 || currentSize + incomingSize <= maxSize
  }

  function ShouldRotate(currentSize: nat, incomingSize: nat, maxSize: nat): (rotate: bool)
    ensures incomingSize > 0 ==> (rotate <==> !Fits(currentSize, incomingSize, maxSize))
    ensures !rotate ==> Fits(currentSize, incomingSize, maxSize)
  {
    if currentSize == 0 then false
    else if currentSize >= maxSize then true
    else incomingSize > maxSize - currentSize
  }

  /** A file within the bound, or one line, perhaps cut short, that alone exceeds it. */
  ghost predicate Bounded(content: seq<Byte>, maxSize: nat, lines: set<seq<Byte>>) {
    |content| <= maxSize || exists line :: line in lines && content <= line
  }

  ghost predicate AllBounded(disk: Disk, path: string, retained: nat, maxSize: nat, lines: set<seq<Byte>>) {
    forall g :: 0 <= g <= retained && Present(disk, path, g) ==> Bounded(Content(disk, path, g), maxSize, lines)
  }

  lemma RotationKeepsBounds(
    before: Disk, after: Disk, path: string, retained: nat, hole: nat, maxSize: nat, lines: set<seq<Byte>>)
    requires Rotated(before, after, path, retained, hole) && AllBounded(before, path, retained, maxSize, lines)
    ensures AllBounded(after, path, retained, maxSize, lines)
  {
    forall g | 0 <= g <= retained && Present(after, path, g)
      ensures Bounded(Content(after, path, g), maxSize, lines)
    {
      if g < hole {
        assert Unmoved(after, before, path, g);
      } else if g > hole {
        assert MovedUp(after, before, path, g);
      }
    }
  }

  ghost function Names(path: string, retained: int): (names: set<string>)
    ensures |names| <= if retained < 0 then 0 else retained + 1
    ensures forall g :: 0 <= g <= retained ==> Name(path, g) in names
    decreases retained + 1
  {
    if retained < 0 then {} else Names(path, retained - 1) + {Name(path, retained)}
  }

  /** Every file that is not someone else's is one of the R + 1 generations. */
  ghost predicate OnlyGenerations(disk: Disk, path: string, retained: nat, foreign: set<string>) {
    disk.Keys <= foreign + Names(path, retained)
  }

  lemma AtMostOneFilePerGeneration(disk: Disk, path: string, retained: nat, foreign: set<string>)
    requires OnlyGenerations(disk, path, retained, foreign)
    ensures |disk.Keys - foreign| <= retained + 1
  {
    SubsetCount(disk.Keys - foreign, Names(path, retained));
  }

  // ----- The log -----------------------------------------------------------------------------

  /** `GetLastError` after a failed path operation: only an absent file is reported as missing. */
  datatype PathResult = Done | Missing | OtherError

  class RotatingTraceLog {
    const path: string
    const maxSize: nat
    const retained: nat
    var disk: Disk
    ghost const foreign: set<string>
    ghost var written: seq<Byte>
    ghost var lines: set<seq<Byte>>
    ghost var clobbered: bool

    ghost predicate Valid()
      reads this
    {
      && Suffix(Kept(disk, path, retained), written)
      && AllBounded(disk, path, retained, maxSize, lines)
      && OnlyGenerations(disk, path, retained, foreign)
      && !clobbered
    }

    /** A log may start on a disk that already holds generations; what they hold counts as written. */
    constructor (
      path: string, maxSize: nat, retained: nat, disk: Disk, ghost foreign: set<string>, ghost lines: set<seq<Byte>>)
      requires AllBounded(disk, path, retained, maxSize, lines) && OnlyGenerations(disk, path, retained, foreign)
      ensures Valid() && this.disk == disk && written == Kept(disk, path, retained)
      ensures this.path == path && this.maxSize == maxSize && this.retained == retained
    {
      this.path, this.maxSize, this.retained, this.disk := path, maxSize, retained, disk;
      this.foreign, this.lines := foreign, lines;
      this.written, this.clobbered := Kept(disk, path, retained), false;
    }

    method DeleteFile(name: string) returns (result: PathResult)
      modifies this`disk
      ensures result.Done? ==> name in old(disk) && disk == old(disk) - {name}
      ensures !result.Done? ==> disk == old(disk)
      ensures result.Missing? ==> name !in disk
    {
      var fails := *;
      if fails {
        return OtherError;
      }
      if name !in disk {
        return Missing;
      }
      disk := disk - {name};
      return Done;
    }

    /** Replaces the destination; the ghost flag remembers if there was one to replace. */
    method MoveFile(source: string, destination: string) returns (result: PathResult)
      modifies this`disk, this`clobbered
      ensures result.Done? ==> source in old(disk) && disk == (old(disk) - {source})[destination := old(disk)[source]]
      ensures !result.Done? ==> disk == old(disk)
      ensures result.Missing? ==> source !in disk
      ensures clobbered == (old(clobbered) || (result.Done? && destination in old(disk)))
    {
      var fails := *;
      if fails {
        return OtherError;
      }
      if source !in disk {
        return Missing;
      }
      clobbered := clobbered || destination in disk;
      disk := (disk - {source})[destination := disk[source]];
      return Done;
    }

    method RemoveFileIfPresent(name: string) returns (ok: bool)
      modifies this`disk
      ensures ok ==> disk == old(disk) - {name}
      ensures !ok ==> disk == old(disk)
    {
      var result := DeleteFile(name);
      assert result.Missing? ==> disk - {name} == disk;
      return !result.OtherError?;
    }

    /** Moving a generation into the hole above it moves the hole down. */
    method MoveGeneration(generation: nat, ghost before: Disk) returns (ok: bool)
      requires generation < retained && Rotated(before, disk, path, retained, generation + 1)
      modifies this`disk, this`clobbered
      ensures clobbered == old(clobbered)
      ensures ok ==> Rotated(before, disk, path, retained, generation)
      ensures !ok ==> disk == old(disk)
      ensures disk.Keys <= old(disk).Keys + Names(path, retained)
    {
      ghost var was := disk;
      var result := MoveFile(Name(path, generation), Name(path, generation + 1));
      if result.Done? {
        MovedDown(before, was, disk, path, retained, generation);
      } else if result.Missing? {
        MissingIsMoved(before, disk, path, retained, generation);
      }
      return !result.OtherError?;
    }

    method RotateTraceLog() returns (ok: bool, ghost hole: nat)
      modifies this`disk, this`clobbered
      ensures clobbered == old(clobbered)
      ensures ok ==> hole == 0
      ensures disk == old(disk) || Rotated(old(disk), disk, path, retained, hole)
      ensures ok ==> Rotated(old(disk), disk, path, retained, 0)
      ensures disk.Keys <= old(disk).Keys + Names(path, retained)
    {
      hide Rotated, Names;
      hole := 0;
      ghost var before := disk;
      OldestRemoved(before, path, retained);
      if retained == 0 {
        ok := RemoveFileIfPresent(path);
        return;
      }
      var removed := RemoveFileIfPresent(Name(path, retained));
      if !removed {
        return false, 0;
      }
      var generation := retained;
      while generation > 1
        invariant 1 <= generation <= retained
        invariant Rotated(before, disk, path, retained, generation)
        invariant clobbered == old(clobbered)
        invariant disk.Keys <= before.Keys + Names(path, retained)
        decreases generation
      {
        var moved := MoveGeneration(generation - 1, before);
        if !moved {
          return false, generation;
        }
        generation := generation - 1;
      }
      ok := MoveGeneration(0, before);
      hole := if ok then 0 else 1;
    }

    /** Opening creates the file when it is absent. */
    method OpenTraceLog() returns (handle: bool)
      modifies this`disk
      ensures disk == if handle && path !in old(disk) then old(disk)[path := []] else old(disk)
      ensures handle ==> path in disk
    {
      handle := *;
      if handle && path !in disk {
        disk := disk[path := []];
      }
    }

    /** A write may be cut short or fail; it reports success only when every byte went out. */
    method WriteTraceLogLine(handle: bool, line: seq<Byte>) returns (ok: bool)
      requires handle ==> path in disk
      modifies this`disk, this`written
      ensures ok ==> handle && written == old(written) + line
      ensures old(written) <= written <= old(written) + line
      ensures ghost var part := written[|old(written)|..];
              disk == if handle then old(disk)[path := old(disk)[path] + part] else old(disk)
      ensures !handle ==> written == old(written)
    {
      if !handle {
        return false;
      }
      var count :| 0 <= count <= |line|;
      var reported := *;
      disk := disk[path := disk[path] + line[..count]];
      written := written + line[..count];
      assert written[|old(written)|..] == line[..count];
      return reported && count == |line|;
    }

    /** After a rotation that got through, the reopened active file is empty. */
    method RotateAndReopen() returns (ok: bool, handle: bool)
      requires Valid()
      modifies this`disk, this`clobbered
      ensures Valid()
      ensures handle ==> ok && path in disk && disk[path] == []
      ensures || Kept(disk, path, retained) == Kept(old(disk), path, retained)
              || Kept(disk, path, retained) == Kept(old(disk), path, retained - 1)
    {
      hide Kept, AllBounded, Names, Rotated, Suffix, OnlyGenerations;
      ghost var before := disk;
      ghost var hole: nat;
      ok, hole := RotateTraceLog();
      if disk != before {
        RotationKeeps(before, disk, path, retained, hole, maxSize, lines, written);
      }
      StillOnlyGenerations(before, disk, path, retained, foreign);
      if !ok {
        return false, false;
      }
      ActiveIsGone(before, disk, path, retained);
      handle := OpenActive();
    }

    method OpenActive() returns (handle: bool)
      requires Valid()
      modifies this`disk
      ensures Valid()
      ensures handle ==> path in disk && disk[path] == (if path in old(disk) then old(disk)[path] else [])
      ensures !handle ==> disk == old(disk)
      ensures Kept(disk, path, retained) == Kept(old(disk), path, retained)
      ensures Kept(disk, path, retained - 1) == Kept(old(disk), path, retained - 1)
    {
      hide Kept, AllBounded, Names, Suffix;
      OpenKeepsContents(disk, path, retained);
      OpenKeeps(disk, path, retained, maxSize, lines);
      handle := OpenTraceLog();
    }

    /** Write to an active file that is empty or has room. */
    method WriteActive(handle: bool, line: seq<Byte>) returns (ok: bool)
      requires Valid() && line in lines
      requires handle ==> path in disk && (disk[path] == [] || |disk[path]| + |line| <= maxSize)
      modifies this`disk, this`written
      ensures Valid()
      ensures old(written) <= written <= old(written) + line
      ensures ok ==> handle && written == old(written) + line
      ensures handle ==> path in disk && disk[path] == old(disk[path]) + written[|old(written)|..]
      ensures Kept(disk, path, retained) == Kept(old(disk), path, retained) + written[|old(written)|..]
    {
      hide Kept, AllBounded, Names;
      ghost var before, soFar := disk, written;
      ok := WriteTraceLogLine(handle, line);
      ghost var part := written[|soFar|..];
      assert written == soFar + part && part <= line;
      if handle {
        AppendKeeps(before, path, retained, maxSize, lines, line, part);
        SuffixGrows(Kept(before, path, retained), soFar, part);
        OpenKeeps(before, path, retained, maxSize, lines);
      }
    }

    /**
     * Append one line, rotating first when it would not fit; false as soon as anything fails. Nothing
     * kept is ever lost but the oldest generation, and that only when the line does not fit.
     */
    method AppendRotatingTraceLog(line: seq<Byte>) returns (ok: bool, ghost fits: bool)
      requires Valid()
      modifies this
      ensures Valid()
      ensures fits == Fits(|old(Content(disk, path, 0))|, |line|, maxSize)
      ensures old(written) <= written <= old(written) + line
      ensures ok ==> written == old(written) + line && path in disk
                     && disk[path] == if fits then old(Content(disk, path, 0)) + line else line
      ensures Kept(disk, path, retained) == old(Kept(disk, path, retained)) + written[|old(written)|..]
              || (!fits && Kept(disk, path, retained)
                           == old(Kept(disk, path, retained - 1)) + written[|old(written)|..])
      ensures path == [] || line == [] || maxSize == 0 || |line| > 0xFFFF_FFFF ==> !ok && disk == old(disk)
    {
      fits := Fits(|Content(disk, path, 0)|, |line|, maxSize);
      if path == [] || line == [] || maxSize == 0 || |line| > DWORD_MAX {
        return false, fits;
      }
      BoundsGrow(disk, path, retained, maxSize, lines, line);
      hide Kept, AllBounded, Names, Suffix, ShouldRotate;
      lines := lines + {line};
      var handle := OpenActive();
      if !handle {
        return false, fits;
      }
      var sizeKnown := *;
      if !sizeKnown {
        return false, fits;
      }
      if ShouldRotate(|disk[path]|, |line|, maxSize) {
        ok, handle := RotateAndReopen();
        if !ok {
          return false, fits;
        }
      }
      assert [] + line == line;
      ok := WriteActive(handle, line);
    }
  }

  // ----- Steps of a rotation and an append -----------------------------------------------------

  /** A rotation that got as far as `hole` loses the oldest generation and keeps suffix and bounds. */
  lemma RotationKeeps(
    before: Disk, after: Disk, path: string, retained: nat, hole: nat,
    maxSize: nat, lines: set<seq<Byte>>, written: seq<Byte>)
    requires Rotated(before, after, path, retained, hole) && AllBounded(before, path, retained, maxSize, lines)
    requires Suffix(Kept(before, path, retained), written)
    ensures Kept(after, path, retained) == Kept(before, path, retained - 1)
    ensures Suffix(Kept(after, path, retained), written) && AllBounded(after, path, retained, maxSize, lines)
  {
    hide Kept, AllBounded, Rotated, Suffix;
    RotationDropsOldest(before, after, path, retained, hole);
    RotationKeepsBounds(before, after, path, retained, hole, maxSize, lines);
    SuffixTransitive(Kept(after, path, retained), Kept(before, path, retained), written);
  }

  lemma StillOnlyGenerations(before: Disk, after: Disk, path: string, retained: nat, foreign: set<string>)
    requires OnlyGenerations(before, path, retained, foreign)
    requires after.Keys <= before.Keys + Names(path, retained)
    ensures OnlyGenerations(after, path, retained, foreign)
  {
    hide Names;
  }

  lemma OldestRemoved(before: Disk, path: string, retained: nat)
    ensures Rotated(before, before - {Name(path, retained)}, path, retained, retained)
  {
    forall g | 0 <= g < retained
      ensures Unmoved(before - {Name(path, retained)}, before, path, g)
    {
      if Name(path, g) == Name(path, retained) {
        NamesInjective(path, g, retained);
      }
    }
  }

  lemma MovedDown(before: Disk, was: Disk, now: Disk, path: string, retained: nat, generation: nat)
    requires generation < retained && Rotated(before, was, path, retained, generation + 1)
    requires Name(path, generation) in was
    requires now == (was - {Name(path, generation)})[Name(path, generation + 1) := was[Name(path, generation)]]
    ensures Rotated(before, now, path, retained, generation)
    ensures now.Keys <= was.Keys + Names(path, retained)
  {
    forall g, h | Name(path, g) == Name(path, h)
      ensures g == h
    {
      NamesInjective(path, g, h);
    }
    forall g | generation < g <= retained
      ensures MovedUp(now, before, path, g)
    {
      if g == generation + 1 {
        assert Unmoved(was, before, path, generation);
      } else {
        assert MovedUp(was, before, path, g);
      }
    }
    forall g | 0 <= g < generation
      ensures Unmoved(now, before, path, g)
    {
      assert Unmoved(was, before, path, g);
    }
  }

  lemma MissingIsMoved(before: Disk, disk: Disk, path: string, retained: nat, generation: nat)
    requires generation < retained && Rotated(before, disk, path, retained, generation + 1)
    requires Name(path, generation) !in disk
    ensures Rotated(before, disk, path, retained, generation)
  {
    assert Unmoved(disk, before, path, generation);
  }

  lemma ActiveIsGone(before: Disk, disk: Disk, path: string, retained: nat)
    requires Rotated(before, disk, path, retained, 0)
    ensures path !in disk
  {
    assert !Present(disk, path, 0);
  }

  lemma BoundsGrow(disk: Disk, path: string, retained: nat, maxSize: nat, lines: set<seq<Byte>>, line: seq<Byte>)
    requires AllBounded(disk, path, retained, maxSize, lines)
    ensures AllBounded(disk, path, retained, maxSize, lines + {line})
  {
  }

  /** Only the active file differs between two disks. */
  ghost predicate OnlyActiveDiffers(a: Disk, b: Disk, path: string) {
    forall g :: g > 0 ==> Unmoved(a, b, path, g)
  }

  lemma ActiveUpdate(disk: Disk, path: string, content: seq<Byte>)
    ensures OnlyActiveDiffers(disk[path := content], disk, path)
  {
    var now := disk[path := content];
    forall g: int | g > 0
      ensures Unmoved(now, disk, path, g)
    {
      if Name(path, g) == Name(path, 0) {
        NamesInjective(path, g, 0);
      }
    }
  }

  lemma {:induction false} KeptAfterActive(a: Disk, b: Disk, path: string, oldest: nat, more: seq<Byte>)
    requires OnlyActiveDiffers(a, b, path) && Content(a, path, 0) == Content(b, path, 0) + more
    ensures Kept(a, path, oldest) == Kept(b, path, oldest) + more
  {
    hide OnlyActiveDiffers, Content;
    KeptSplits(a, path, oldest);
    KeptSplits(b, path, oldest);
    if oldest == 0 {
      assert Kept(a, path, -1) == [] && Kept(b, path, -1) == [];
    } else {
      KeptAfterActive(a, b, path, oldest - 1, more);
      SameOlder(a, b, path, oldest);
      hide Kept;
      assert Content(b, path, oldest) + (Kept(b, path, oldest - 1) + more)
          == Content(b, path, oldest) + Kept(b, path, oldest - 1) + more;
    }
  }

  lemma KeptSplits(disk: Disk, path: string, oldest: nat)
    ensures Kept(disk, path, oldest) == Content(disk, path, oldest) + Kept(disk, path, oldest - 1)
  {
    hide Content;
  }

  lemma SameOlder(a: Disk, b: Disk, path: string, g: int)
    requires OnlyActiveDiffers(a, b, path) && g > 0
    ensures Content(a, path, g) == Content(b, path, g)
  {
    hide Content;
    assert Unmoved(a, b, path, g);
  }

  lemma OpenKeeps(disk: Disk, path: string, retained: nat, maxSize: nat, lines: set<seq<Byte>>)
    requires AllBounded(disk, path, retained, maxSize, lines)
    ensures var now := if path in disk then disk else disk[path := []];
            && Kept(now, path, retained) == Kept(disk, path, retained)
            && AllBounded(now, path, retained, maxSize, lines)
    ensures path in Names(path, retained)
  {
    assert Name(path, 0) in Names(path, retained);
    if path !in disk {
      var now := disk[path := []];
      ActiveUpdate(disk, path, []);
      KeptAfterActive(now, disk, path, retained, []);
      forall g | 0 <= g <= retained && Present(now, path, g)
        ensures Bounded(Content(now, path, g), maxSize, lines)
      {
        if g > 0 {
          assert Unmoved(now, disk, path, g);
        }
      }
    }
  }

  lemma {:induction false} OpenKeepsContents(disk: Disk, path: string, oldest: int)
    ensures Kept(if path in disk then disk else disk[path := []], path, oldest) == Kept(disk, path, oldest)
    ensures Kept(if path in disk then disk else disk[path := []], path, oldest - 1) == Kept(disk, path, oldest - 1)
    decreases oldest + 1
  {
    if oldest > 0 {
      OpenKeepsContents(disk, path, oldest - 1);
    }
  }

  /** Writing part of a line where it fits, or to an empty file, keeps everything but the end in place. */
  lemma AppendKeeps(
    disk: Disk, path: string, retained: nat, maxSize: nat, lines: set<seq<Byte>>, line: seq<Byte>, part: seq<Byte>)
    requires path in disk && line in lines && part <= line
    requires AllBounded(disk, path, retained, maxSize, lines)
    requires disk[path] == [] || |disk[path]| + |line| <= maxSize
    ensures var now := disk[path := disk[path] + part];
            && Kept(now, path, retained) == Kept(disk, path, retained) + part
            && AllBounded(now, path, retained, maxSize, lines)
  {
    var now := disk[path := disk[path] + part];
    ActiveUpdate(disk, path, disk[path] + part);
    KeptAfterActive(now, disk, path, retained, part);
    forall g | 0 <= g <= retained && Present(now, path, g)
      ensures Bounded(Content(now, path, g), maxSize, lines)
    {
      if g > 0 {
        assert Unmoved(now, disk, path, g);
      } else if disk[path] == [] {
        assert disk[path] + part == part;
      }
    }
  }
}
