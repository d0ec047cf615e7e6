/**
  The binary-log endpoint (`LogEndpoint`): choosing the index of the next
  log file from the names already in the log directory, trying candidate
  file names in order, and the start / stop / liveness-check life cycle.

  The directory listing, the wall clock, `open` and `strdup` are inputs:
  the names `readdir` returns, the broken-down local time, the answer of
  `open` for each file name, and whether the copy of the name could be
  allocated.  The endpoint's timers live in the main loop's timer list.
 */
module LogEndpoint {
  import opened Common
  import opened Scheduler

  /** MAX_LOG_FILE_PREFIX: the highest file index. */
  const MaxLogFilePrefix: nat := 999
  /** PATH_MAX: the size of the file-name buffer, NUL included. */
  const PathMax: nat := 4096
  /** ALIVE_TIMEOUT of logendpoint.h, in seconds. */
  const AliveTimeout: nat := 5

  const Uint16Modulus: nat := 0x1_0000
  const Uint64Modulus: nat := 0x1_0000_0000_0000_0000

  // ---------------------------------------------------------------------
  // Decimal text

  predicate IsDigit(c: char) {
    '0' <= c <= '9'
  }

  predicate AllDigits(s: string) {
    forall i :: 0 <= i < |s| ==> IsDigit(s[i])
  }

  function Digit(d: nat): (c: char)
    requires d < 10
    ensures IsDigit(c) && c as int - '0' as int == d
  {
    ('0' as int + d) as char
  }

  /** `n` in decimal without leading zeros ("0" for zero). */
  function Digits(n: nat): (s: string)
    ensures 1 <= |s| && AllDigits(s)
    decreases n
  {
    if n < 10 then [Digit(n)] else Digits(n / 10) + [Digit(n % 10)]
  }

  /** Three digits suffice exactly for the numbers below 1000. */
  lemma {:induction false} DigitsLength(n: nat)
    ensures |Digits(n)| <= 3 <==> n < 1000
    decreases n
  {
    if n >= 10 {
      DigitsLength(n / 10);
    }
  }

  function Zeros(k: nat): (s: string)
    ensures |s| == k && forall i :: 0 <= i < k ==> s[i] == '0'
  {
    seq(k, _ => '0')
  }

  /** `%0<w>u`: `n` in decimal, zero-padded on the left to `w` characters. */
  function Pad(n: nat, w: nat): (s: string)
    ensures AllDigits(s) && |s| == Max(w, |Digits(n)|)
  {
    var d := Digits(n);
    Zeros(if w > |d| then w - |d| else 0) + d
  }

  /** `%0<w>i`: a signed integer, its sign counted in the width. */
  function PadInt(x: int, w: nat): string {
    if x >= 0 then Pad(x, w)
    else "-" + Pad(-x, if w > 1 then w - 1 else 0)
  }

  /** The number a run of decimal digits denotes. */
  function DigitsValue(s: string): nat
    requires AllDigits(s)
    decreases |s|
  {
    if s == [] then 0
    else DigitsValue(s[..|s| - 1]) * 10 + (s[|s| - 1] as int - '0' as int)
  }

  /** Reading back what `Digits` wrote gives the number again. */
  lemma {:induction false} DigitsRoundTrip(n: nat)
    ensures DigitsValue(Digits(n)) == n
    decreases n
  {
    if n >= 10 {
      var d := Digits(n);
      assert d[..|d| - 1] == Digits(n / 10);
      DigitsRoundTrip(n / 10);
    }
  }

  /** Leading zeros do not change the value. */
  lemma {:induction false} ZerosValue(k: nat, s: string)
    requires AllDigits(s)
    ensures DigitsValue(Zeros(k) + s) == DigitsValue(s)
    decreases |s|
  {
    if s == [] {
      assert Zeros(k) + s == Zeros(k);
      ZerosZero(k);
    } else {
      var t := Zeros(k) + s;
      assert t[..|t| - 1] == Zeros(k) + s[..|s| - 1];
      ZerosValue(k, s[..|s| - 1]);
    }
  }

  lemma {:induction false} ZerosZero(k: nat)
    ensures DigitsValue(Zeros(k)) == 0
  {
    if k > 0 {
      assert Zeros(k)[..k - 1] == Zeros(k - 1);
      ZerosZero(k - 1);
    }
  }

  /** A padded number reads back as the number. */
  lemma PadRoundTrip(n: nat, w: nat)
    ensures DigitsValue(Pad(n, w)) == n
  {
    var d := Digits(n);
    ZerosValue(if w > |d| then w - |d| else 0, d);
    DigitsRoundTrip(n);
  }

  // ---------------------------------------------------------------------
  // `sscanf(name, "%hu-", &u)`

  /** The length of the run of decimal digits `s` starts with. */
  function DigitRun(s: string): (n: nat)
    ensures n <= |s| && AllDigits(s[..n])
    ensures n < |s| ==> !IsDigit(s[n])
  {
    if s == [] || !IsDigit(s[0]) then 0
    else
      var n := 1 + DigitRun(s[1..]);
      assert s[..n] == [s[0]] + s[1..][..n - 1];
      n
  }

  /**
    What `sscanf(name, "%hu-", &u)` stores in `u` when it returns 1, and
    None when it returns 0.  `%hu` skips leading whitespace, takes an
    optional sign and at least one decimal digit, converts like `strtoul`
    with a 64-bit `unsigned long` (a value past its range gives its
    maximum, a minus sign negates modulo 2^64) and keeps the low 16 bits.
    The literal '-' after the number does not change the count.
  */
  function ScanShort(name: string): (u: Option<nat>)
    ensures u.Some? ==> u.value < Uint16Modulus
    ensures u.Some? <==>
      var i := LeadingSpace(name);
      var j := if i < |name| && (name[i] == '+' || name[i] == '-') then i + 1 else i;
      j < |name| && IsDigit(name[j])
  {
    var i := LeadingSpace(name);
    var signed := i < |name| && (name[i] == '+' || name[i] == '-');
    var j := if signed then i + 1 else i;
    var n := DigitRun(name[j..]);
    if n == 0 then None
    else
      var v := DigitsValue(name[j..][..n]);
      var wide :=
        if v >= Uint64Modulus then Uint64Modulus - 1
        else if signed && name[i] == '-' then (Uint64Modulus - v) % Uint64Modulus
        else v;
      Some(wide % Uint16Modulus)
  }

  // ---------------------------------------------------------------------
  // File names

  /** The broken-down local time, as `struct tm` holds it: years since
      1900 and months from 0. */
  datatype Tm = Tm(year: int, mon: int, mday: int, hour: int, min: int, sec: int)

  /** Everything of a log file name after its index. */
  function Stamp(tm: Tm, ext: string): (s: string)
    ensures s != [] && s[0] == '-'
  {
    "-" + PadInt(tm.year + 1900, 0) + "-" + PadInt(tm.mon + 1, 2) + "-" + PadInt(tm.mday, 2) +
    "_" + PadInt(tm.hour, 2) + "-" + PadInt(tm.min, 2) + "-" + PadInt(tm.sec, 2) + "." + ext
  }

  /** `%03u-%i-%02i-%02i_%02i-%02i-%02i.%s`: the name of log file `i`. */
  function BaseName(i: nat, tm: Tm, ext: string): string {
    Pad(i, 3) + Stamp(tm, ext)
  }

  function FileName(dir: string, i: nat, tm: Tm, ext: string): string {
    dir + "/" + BaseName(i, tm, ext)
  }

  /** A name that starts with decimal digits followed by something else
      scans as the number those digits denote, when it fits 16 bits. */
  lemma ScanNumberThen(p: string, rest: string)
    requires p != [] && AllDigits(p) && DigitsValue(p) < Uint16Modulus
    requires rest != [] && !IsDigit(rest[0])
    ensures ScanShort(p + rest) == Some(DigitsValue(p))
  {
    var name := p + rest;
    assert name[0] == p[0];
    assert LeadingSpace(name) == 0;
    assert name[0..] == name;
    DigitRunOf(p, rest);
    assert name[..|p|] == p;
  }

  lemma {:induction false} DigitRunOf(p: string, rest: string)
    requires AllDigits(p) && rest != [] && !IsDigit(rest[0])
    ensures DigitRun(p + rest) == |p|
    decreases |p|
  {
    if p == [] {
      assert p + rest == rest;
    } else {
      var s := p + rest;
      assert s[0] == p[0] && IsDigit(s[0]);
      assert s[1..] == p[1..] + rest;
      assert AllDigits(p[1..]) by {
        forall i | 0 <= i < |p| - 1 ensures IsDigit(p[1..][i]) {
          assert p[1..][i] == p[i + 1];
        }
      }
      DigitRunOf(p[1..], rest);
      assert DigitRun(s) == 1 + DigitRun(s[1..]);
    }
  }

  /** The scan of the directory reads the index back out of the name of
      any log file this endpoint created. */
  lemma ScanOwnName(i: nat, tm: Tm, ext: string)
    requires i <= MaxLogFilePrefix
    ensures ScanShort(BaseName(i, tm, ext)) == Some(i)
  {
    PadRoundTrip(i, 3);
    ScanNumberThen(Pad(i, 3), Stamp(tm, ext));
  }

  /** Every candidate name has the same length, so the length check of
      `_get_file` passes for all of them or for none. */
  lemma NameLength(dir: string, i: nat, j: nat, tm: Tm, ext: string)
    requires i <= MaxLogFilePrefix && j <= MaxLogFilePrefix
    ensures |FileName(dir, i, tm, ext)| == |FileName(dir, j, tm, ext)|
  {
    DigitsLength(i);
    DigitsLength(j);
  }

  /** Different indices name different files. */
  lemma NamesDistinct(dir: string, i: nat, j: nat, tm: Tm, ext: string)
    requires i <= MaxLogFilePrefix && j <= MaxLogFilePrefix && i != j
    ensures FileName(dir, i, tm, ext) != FileName(dir, j, tm, ext)
  {
    var a, b := FileName(dir, i, tm, ext), FileName(dir, j, tm, ext);
    var k := |dir| + 1;
    DigitsLength(i);
    DigitsLength(j);
    assert a[k..k + 3] == Pad(i, 3);
    assert b[k..k + 3] == Pad(j, 3);
    PadRoundTrip(i, 3);
    PadRoundTrip(j, 3);
  }

  // ---------------------------------------------------------------------
  // `_get_prefix`

  /** What the scan reads from each directory entry. */
  function Scan(names: seq<string>): (us: seq<Option<nat>>)
    ensures |us| == |names| && forall i :: 0 <= i < |names| ==> us[i] == ScanShort(names[i])
  {
    seq(|names|, i requires 0 <= i < |names| => ScanShort(names[i]))
  }

  /** One directory entry of the scan: an index below the maximum that is
      not below the current prefix moves the prefix past it. */
  function PrefixStep(prefix: nat, u: Option<nat>): (p: nat)
    ensures p >= prefix
  {
    match u
    case Some(v) => if v >= prefix && v < MaxLogFilePrefix then v + 1 else prefix
    case None => prefix
  }

  /** The prefix after scanning the entries in the order `readdir` gives them. */
  function PrefixOf(us: seq<Option<nat>>): nat
    decreases |us|
  {
    if us == [] then 0 else PrefixStep(PrefixOf(us[..|us| - 1]), us[|us| - 1])
  }

  /** The order-free description of the prefix: one more than the largest
      leading number below the maximum, or 0 when there is none. */
  predicate IsPrefix(us: seq<Option<nat>>, p: nat) {
    p <= MaxLogFilePrefix &&
    (forall v :: Some(v) in us && v < MaxLogFilePrefix ==> v < p) &&
    (p > 0 ==> Some(p - 1) in us)
  }

  lemma {:induction false} PrefixOfSpec(us: seq<Option<nat>>)
    ensures IsPrefix(us, PrefixOf(us))
    decreases |us|
  {
    if us != [] {
      var n := |us| - 1;
      var init := us[..n];
      PrefixOfSpec(init);
      assert us == init + [us[n]];
      forall v | Some(v) in us && v < MaxLogFilePrefix
        ensures v < PrefixOf(us)
      {
        if Some(v) != us[n] {
          assert Some(v) in init;
        }
      }
    }
  }

  /** The description admits only one prefix. */
  lemma IsPrefixUnique(us: seq<Option<nat>>, p: nat, q: nat)
    requires IsPrefix(us, p) && IsPrefix(us, q)
    ensures p == q
  {
  }

  /** The prefix does not depend on the order in which `readdir` returns
      the entries, nor on how often it returns one. */
  lemma PrefixOrderFree(a: seq<string>, b: seq<string>)
    requires forall x :: x in a <==> x in b
    ensures PrefixOf(Scan(a)) == PrefixOf(Scan(b))
  {
    ScanMembers(a, b);
    ScanMembers(b, a);
    PrefixOfSpec(Scan(a));
    PrefixOfSpec(Scan(b));
    IsPrefixUnique(Scan(b), PrefixOf(Scan(a)), PrefixOf(Scan(b)));
  }

  lemma ScanMembers(a: seq<string>, b: seq<string>)
    requires forall x :: x in a ==> x in b
    ensures forall u :: u in Scan(a) ==> u in Scan(b)
  {
    forall u | u in Scan(a) ensures u in Scan(b) {
      var i :| 0 <= i < |a| && Scan(a)[i] == u;
      assert a[i] in b;
      var j :| 0 <= j < |b| && b[j] == a[i];
      assert Scan(b)[j] == u;
    }
  }

  /** A directory holding a log file of this endpoint with an index below
      the maximum gives a prefix above that index. */
  lemma PrefixAboveOwnFiles(names: seq<string>, i: nat, tm: Tm, ext: string)
    requires i < MaxLogFilePrefix && BaseName(i, tm, ext) in names
    ensures i < PrefixOf(Scan(names))
  {
    ScanOwnName(i, tm, ext);
    var k :| 0 <= k < |names| && names[k] == BaseName(i, tm, ext);
    assert Scan(names)[k] == Some(i);
    PrefixOfSpec(Scan(names));
  }

  datatype Prefix = Prefix(ret: int, prefix: Option<nat>)

  /**
    `_get_prefix`.  `dirOk` says whether `opendir` succeeded and `errno`
    is its error otherwise, in which case the prefix is not written;
    `names` are the entries `readdir` returns.
  */
  method GetPrefix(names: seq<string>, dirOk: bool, errno: nat) returns (r: Prefix)
    ensures !dirOk ==> r == Prefix(-(errno as int), None)
    ensures dirOk ==> r.ret == 0 && r.prefix.Some? && IsPrefix(Scan(names), r.prefix.value)
  {
    if !dirOk {
      return Prefix(-(errno as int), None);
    }
    var us := Scan(names);
    var prefix := 0;
    var k := 0;
    while k < |names|
      invariant k <= |names|
      invariant prefix == PrefixOf(us[..k])
    {
      PrefixOfExtend(us, k);
      ghost var next := PrefixStep(prefix, us[k]);
      match us[k] {
        case Some(u) =>
          if u >= prefix && u < MaxLogFilePrefix {
            prefix := u + 1;
          }
        case None =>
      }
      assert prefix == next;
      k := k + 1;
    }
    assert us[..k] == us;
    PrefixOfSpec(us);
    r := Prefix(0, Some(prefix));
  }

  lemma PrefixOfExtend(us: seq<Option<nat>>, k: nat)
    requires k < |us|
    ensures PrefixOf(us[..k + 1]) == PrefixStep(PrefixOf(us[..k]), us[k])
  {
    assert us[..k + 1][..k] == us[..k];
  }

  // ---------------------------------------------------------------------
  // `_get_file`

  datatype OpenResult = Opened(fd: nat) | OpenFailed(errno: nat)

  /** The result of `_get_file`: the descriptor or an error, and the name
      of the file when one was opened. */
  datatype Got = Got(ret: int, name: Option<string>)

  /** The open of every candidate from `from` up to `upto` (excluded)
      answered EEXIST. */
  predicate AnsweredEexist(dir: string, tm: Tm, ext: string, open: string -> OpenResult, from: nat, upto: nat) {
    forall k :: from <= k < upto ==> open(FileName(dir, k, tm, ext)) == OpenFailed(EEXIST)
  }

  /**
    The candidate loop of `_get_file` from index `i`, for any behaviour
    `open` of `open(2)`: the name of each candidate is formatted, a name
    that does not fit the buffer is -EINVAL, an open that answers EEXIST
    moves on to the next index, any other open error is -1, and so is
    running past index 999.  An opened file whose name cannot be copied is
    -ENOMEM.  With the flags the code passes, `open(2)` never answers
    EEXIST (see `FirstCandidateDecides`).
  */
  function TryFrom(dir: string, tm: Tm, ext: string, open: string -> OpenResult, dupOk: bool, i: nat): (g: Got)
    ensures g.ret >= 0 || g.ret == -1 || g.ret == -EINVAL || g.ret == -ENOMEM
    ensures g.ret >= 0 ==>
      dupOk &&
      exists k :: i <= k <= MaxLogFilePrefix && AnsweredEexist(dir, tm, ext, open, i, k) &&
        open(FileName(dir, k, tm, ext)) == Opened(g.ret) && g.name == Some(FileName(dir, k, tm, ext))
    ensures g.ret < 0 ==> g.name == None
    ensures g.ret == -ENOMEM ==> !dupOk
    ensures i <= MaxLogFilePrefix && |FileName(dir, i, tm, ext)| < PathMax && open(FileName(dir, i, tm, ext)).Opened? && dupOk ==>
      g == Got(open(FileName(dir, i, tm, ext)).fd, Some(FileName(dir, i, tm, ext)))
    ensures g.ret == -EINVAL <==> i <= MaxLogFilePrefix && |FileName(dir, i, tm, ext)| >= PathMax
    ensures g.ret == -1 ==>
      AnsweredEexist(dir, tm, ext, open, i, MaxLogFilePrefix + 1) ||
      exists k :: i <= k <= MaxLogFilePrefix && AnsweredEexist(dir, tm, ext, open, i, k) &&
        open(FileName(dir, k, tm, ext)).OpenFailed? && open(FileName(dir, k, tm, ext)).errno != EEXIST
    decreases MaxLogFilePrefix + 1 - i
  {
    if i > MaxLogFilePrefix then Got(-1, None)
    else
      var name := FileName(dir, i, tm, ext);
      if |name| >= PathMax then Got(-EINVAL, None)
      else match open(name)
        case Opened(fd) => if dupOk then Got(fd, Some(name)) else Got(-ENOMEM, None)
        case OpenFailed(e) =>
          if e != EEXIST then Got(-1, None)
          else
            assert i < MaxLogFilePrefix ==> |FileName(dir, i + 1, tm, ext)| == |name| by {
              if i < MaxLogFilePrefix { NameLength(dir, i, i + 1, tm, ext); }
            }
            TryFrom(dir, tm, ext, open, dupOk, i + 1)
  }

  /**
    The index `_get_file` starts from, as written: when `_get_prefix`
    fails the local `uint16_t i` is never assigned, so the loop starts
    from whatever the variable holds, here `garbage`.
  */
  function StartIndexAsWritten(p: Prefix, garbage: nat): nat {
    if p.ret < 0 || p.prefix.None? then garbage % Uint16Modulus else p.prefix.value
  }

  function GetFileAsWritten(p: Prefix, garbage: nat, dir: string, tm: Tm, ext: string,
                            open: string -> OpenResult, dupOk: bool): Got {
    TryFrom(dir, tm, ext, open, dupOk, StartIndexAsWritten(p, garbage))
  }

  /** With an unreadable directory in which files can still be created,
      the file `_get_file` creates depends on the uninitialised index: it
      is file 5 when the variable happens to hold 5, and there is no file
      at all when it holds 1000. */
  lemma UninitialisedIndexDecides(p: Prefix, dir: string, tm: Tm, ext: string)
    requires p.ret < 0 && |FileName(dir, 0, tm, ext)| < PathMax
    ensures GetFileAsWritten(p, 5, dir, tm, ext, _ => Opened(3), true) == Got(3, Some(FileName(dir, 5, tm, ext)))
    ensures GetFileAsWritten(p, 1000, dir, tm, ext, _ => Opened(3), true) == Got(-1, None)
  {
    NameLength(dir, 0, 5, tm, ext);
  }

  /** The start index with the prefix that failed read as 0: every index is
      a candidate when the directory cannot be listed. */
  function StartIndex(p: Prefix): (i: nat)
    ensures p.ret == 0 && p.prefix.Some? ==> i == p.prefix.value
    ensures p.ret < 0 ==> i == 0
  {
    if p.ret < 0 || p.prefix.None? then 0 else p.prefix.value
  }

  /**
    `_get_file` with the start index defined in every case.  The file it
    opens is the first candidate, from the start index on, whose open does
    not answer EEXIST; with an unreadable directory the candidates start
    at 0, whatever the stack held.
  */
  function GetFile(p: Prefix, dir: string, tm: Tm, ext: string, open: string -> OpenResult, dupOk: bool): (g: Got)
    ensures g.ret >= 0 ==>
      exists k :: StartIndex(p) <= k <= MaxLogFilePrefix &&
        AnsweredEexist(dir, tm, ext, open, StartIndex(p), k) &&
        open(FileName(dir, k, tm, ext)) == Opened(g.ret) && g.name == Some(FileName(dir, k, tm, ext))
    ensures p.ret < 0 && |FileName(dir, 0, tm, ext)| < PathMax && open(FileName(dir, 0, tm, ext)).Opened? && dupOk ==>
      g == Got(open(FileName(dir, 0, tm, ext)).fd, Some(FileName(dir, 0, tm, ext)))
  {
    TryFrom(dir, tm, ext, open, dupOk, StartIndex(p))
  }

  /** `open(2)` as `_get_file` calls it, with O_CREAT|O_TRUNC and without
      O_EXCL, in a writable directory: every name is opened, and a file
      that is already there is truncated. */
  function OpenTruncating(fd: nat): (open: string -> OpenResult)
    ensures forall name :: open(name) == Opened(fd)
  {
    _ => Opened(fd)
  }

  /** `open(2)` with O_EXCL added, in a writable directory whose files are
      `existing`: EEXIST for exactly the names already there. */
  function OpenExclusive(existing: set<string>, fd: nat): (open: string -> OpenResult)
    ensures forall name :: open(name).OpenFailed? <==> name in existing
    ensures forall name :: open(name).OpenFailed? ==> open(name).errno == EEXIST
    ensures forall name :: open(name).Opened? ==> open(name).fd == fd
  {
    name => if name in existing then OpenFailed(EEXIST) else Opened(fd)
  }

  /** When `open(2)` never answers EEXIST, as with the flags `_get_file`
      passes, the candidate loop is decided by its first candidate alone:
      it never moves on to a later index. */
  lemma FirstCandidateDecides(dir: string, tm: Tm, ext: string, open: string -> OpenResult, dupOk: bool, i: nat)
    requires forall name :: open(name) != OpenFailed(EEXIST)
    ensures
      var g := TryFrom(dir, tm, ext, open, dupOk, i);
      var name := FileName(dir, i, tm, ext);
      (g.ret >= 0 ==> g.name == Some(name) && open(name) == Opened(g.ret)) &&
      (g.ret == -1 <==> i > MaxLogFilePrefix || (|name| < PathMax && open(name).OpenFailed?)) &&
      (i <= MaxLogFilePrefix && |name| < PathMax && open(name).Opened? && dupOk ==>
        g == Got(open(name).fd, Some(name)))
  {
  }

  /** As written: the directory cannot be listed and a file of the first
      candidate's name is already there; `_get_file` opens that file again,
      truncating it, instead of moving on to index 1. */
  lemma TruncatesExisting(p: Prefix, dir: string, tm: Tm, ext: string, existing: set<string>)
    requires p.ret < 0 && FileName(dir, 0, tm, ext) in existing && |FileName(dir, 0, tm, ext)| < PathMax
    ensures
      var g := GetFile(p, dir, tm, ext, OpenTruncating(3), true);
      g.ret == 3 && g.name.value in existing
  {
  }

  /** Corrected, with O_EXCL: the file `_get_file` opens is never one that
      was already in the directory, and every candidate it skipped was. */
  lemma ExclusiveOpenIsNew(p: Prefix, dir: string, tm: Tm, ext: string, existing: set<string>, fd: nat, dupOk: bool)
    ensures
      var g := GetFile(p, dir, tm, ext, OpenExclusive(existing, fd), dupOk);
      g.ret >= 0 ==>
        g.ret == fd && g.name.value !in existing &&
        exists k :: StartIndex(p) <= k <= MaxLogFilePrefix && g.name == Some(FileName(dir, k, tm, ext)) &&
          forall j :: StartIndex(p) <= j < k ==> FileName(dir, j, tm, ext) in existing
  {
    var open := OpenExclusive(existing, fd);
    var g := GetFile(p, dir, tm, ext, open, dupOk);
    if g.ret >= 0 {
      var k :| StartIndex(p) <= k <= MaxLogFilePrefix && AnsweredEexist(dir, tm, ext, open, StartIndex(p), k) &&
        open(FileName(dir, k, tm, ext)) == Opened(g.ret) && g.name == Some(FileName(dir, k, tm, ext));
      forall j | StartIndex(p) <= j < k ensures FileName(dir, j, tm, ext) in existing {
        assert open(FileName(dir, j, tm, ext)) == OpenFailed(EEXIST);
      }
    }
  }

  /** Corrected, with O_EXCL, the converse: when the first candidate's name
      fits and some candidate from the start index up to 999 is not in the
      directory, `_get_file` opens a file. */
  lemma ExclusiveOpenFindsNew(p: Prefix, dir: string, tm: Tm, ext: string, existing: set<string>, fd: nat, k: nat)
    requires StartIndex(p) <= k <= MaxLogFilePrefix && FileName(dir, k, tm, ext) !in existing
    requires |FileName(dir, StartIndex(p), tm, ext)| < PathMax
    ensures GetFile(p, dir, tm, ext, OpenExclusive(existing, fd), true).ret >= 0
  {
    FreeCandidateFound(dir, tm, ext, existing, fd, StartIndex(p), k);
  }

  lemma {:induction false} FreeCandidateFound(dir: string, tm: Tm, ext: string, existing: set<string>, fd: nat, i: nat, k: nat)
    requires i <= k <= MaxLogFilePrefix && FileName(dir, k, tm, ext) !in existing
    requires |FileName(dir, i, tm, ext)| < PathMax
    ensures TryFrom(dir, tm, ext, OpenExclusive(existing, fd), true, i).ret >= 0
    decreases k - i
  {
    var open := OpenExclusive(existing, fd);
    if open(FileName(dir, i, tm, ext)).OpenFailed? {
      assert i != k;
      NameLength(dir, i, i + 1, tm, ext);
      FreeCandidateFound(dir, tm, ext, existing, fd, i + 1, k);
    }
  }

  /** The file opened after a successful scan is never one of the indices
      the scan found in the directory. */
  lemma NewFileIsNew(names: seq<string>, dir: string, tm: Tm, ext: string, open: string -> OpenResult,
                     dupOk: bool, i: nat, tm': Tm)
    requires i < MaxLogFilePrefix && BaseName(i, tm', ext) in names
    ensures
      var g := GetFile(Prefix(0, Some(PrefixOf(Scan(names)))), dir, tm, ext, open, dupOk);
      g.ret >= 0 ==> g.name.value != FileName(dir, i, tm, ext)
  {
    PrefixAboveOwnFiles(names, i, tm', ext);
    var g := GetFile(Prefix(0, Some(PrefixOf(Scan(names)))), dir, tm, ext, open, dupOk);
    if g.ret >= 0 {
      var k :| PrefixOf(Scan(names)) <= k <= MaxLogFilePrefix && g.name == Some(FileName(dir, k, tm, ext));
      NamesDistinct(dir, i, k, tm, ext);
    }
  }

  // ---------------------------------------------------------------------
  // Life cycle

  /** The endpoint's state: its file descriptor (-1 when closed), the ids
      of its two timers when they are armed, the system id it logs, and
      the write counter with the value it had at the last liveness check. */
  datatype Log = Log(
    file: int,
    startTimer: Option<nat>,
    aliveTimer: Option<nat>,
    systemId: nat,
    writeTotal: nat,
    checkedTotal: nat)

  datatype Outcome = Outcome(ok: bool, log: Log, timers: seq<Timer>)

  /**
    `start`.  `fd` is what `_get_file` returned; `timerId` and `created`
    describe the `add_timeout` call for the one-second start timer.  A
    started endpoint refuses to start again; a file that cannot be opened,
    or a timer that cannot be armed (the file is then closed), leaves the
    endpoint closed.
  */
  function Start(l: Log, timers: seq<Timer>, fd: int, timerId: nat, created: bool): (o: Outcome)
    ensures l.file != -1 ==> o == Outcome(false, l, timers)
    ensures l.file == -1 ==>
      o.log.aliveTimer == l.aliveTimer && o.log.systemId == l.systemId &&
      o.log.writeTotal == l.writeTotal && o.log.checkedTotal == l.checkedTotal
    ensures l.file == -1 && fd < 0 ==> !o.ok && o.log == l && o.timers == timers
    ensures l.file == -1 && fd >= 0 && !created ==> !o.ok && o.log == l.(startTimer := None) && o.timers == timers
    ensures o.ok <==> l.file == -1 && fd >= 0 && created
    ensures o.ok ==>
      o.log.file == fd && o.log.startTimer == Some(timerId) &&
      o.timers == AddTimeout(timers, MsecPerSec, timerId, true).timers &&
      o.timers[0].period == Interval(1, 0)
    ensures !o.ok ==> o.timers == timers && (l.file == -1 ==> o.log.file == -1)
  {
    if l.file != -1 then Outcome(false, l, timers)
    else if fd < 0 then Outcome(false, l.(file := -1), timers)
    else
      var a := AddTimeout(timers, MsecPerSec, timerId, created);
      if a.t.None? then Outcome(false, l.(file := -1, startTimer := None), timers)
      else Outcome(true, l.(file := fd, startTimer := Some(timerId)), a.timers)
  }

  /** Marks the timer `t` for deletion, if one is armed. */
  function Cancel(timers: seq<Timer>, t: Option<nat>): seq<Timer> {
    if t.Some? then DelTimeout(timers, t.value) else timers
  }

  /**
    `stop`: cancels whichever timers are armed, closes the file and
    forgets the system id.  The statistics are kept.
  */
  function Stop(l: Log, timers: seq<Timer>): (o: Outcome)
    ensures o.ok && o.log == l.(file := -1, startTimer := None, aliveTimer := None, systemId := 0)
    ensures |o.timers| == |timers|
    ensures forall i :: 0 <= i < |timers| ==>
      o.timers[i] == timers[i].(removeMe := timers[i].removeMe || Some(timers[i].id) == l.startTimer || Some(timers[i].id) == l.aliveTimer)
  {
    Outcome(true, l.(file := -1, startTimer := None, aliveTimer := None, systemId := 0),
      Cancel(Cancel(timers, l.startTimer), l.aliveTimer))
  }

  /** After the main loop's sweep, a stopped endpoint has left none of its
      timers behind, and every other timer is still there, in order. */
  lemma StopLeavesNoTimer(l: Log, timers: seq<Timer>)
    requires forall i :: 0 <= i < |timers| ==> !timers[i].removeMe
    ensures
      var swept := Filter(Stop(l, timers).timers, Unmarked);
      swept == Filter(timers, (t: Timer) => Some(t.id) != l.startTimer && Some(t.id) != l.aliveTimer)
  {
    SweepMarked(timers, Stop(l, timers).timers, (t: Timer) => Some(t.id) != l.startTimer && Some(t.id) != l.aliveTimer);
  }

  /** Stopping makes the next start possible. */
  lemma StartAfterStop(l: Log, timers: seq<Timer>, fd: int, timerId: nat)
    requires fd >= 0
    ensures
      var s := Stop(l, timers);
      var o := Start(s.log, s.timers, fd, timerId, true);
      o.ok && o.log.file == fd && o.log.systemId == 0
  {
  }

  /** `_remove_start_timeout`: the start timer must be armed (the code
      dereferences it); it is marked and forgotten. */
  function RemoveStartTimeout(l: Log, timers: seq<Timer>): (o: Outcome)
    requires l.startTimer.Some?
    ensures o.log == l.(startTimer := None)
    ensures o.timers == DelTimeout(timers, l.startTimer.value)
  {
    Outcome(true, l.(startTimer := None), DelTimeout(timers, l.startTimer.value))
  }

  /** `_start_alive_timeout`: arms the periodic liveness check, every
      five seconds, and reports whether that worked. */
  function StartAliveTimeout(l: Log, timers: seq<Timer>, timerId: nat, created: bool): (o: Outcome)
    ensures o.ok == created
    ensures o.log == l.(aliveTimer := if created then Some(timerId) else None)
    ensures created ==>
      |o.timers| == |timers| + 1 && o.timers[0].id == timerId &&
      ToMsec(o.timers[0].period) == AliveTimeout * MsecPerSec && o.timers[1..] == timers
    ensures !created ==> o.timers == timers
  {
    var a := AddTimeout(timers, MsecPerSec * AliveTimeout, timerId, created);
    Outcome(a.t.Some?, l.(aliveTimer := if a.t.Some? then Some(timerId) else None), a.timers)
  }

  /** The liveness timer armed by `_start_alive_timeout` is not marked, so
      the main loop's sweep keeps it, ahead of every timer that survives
      with it, and `_alive_timeout` goes on being called. */
  lemma AliveTimerSurvivesSweep(l: Log, timers: seq<Timer>, timerId: nat)
    ensures
      var o := StartAliveTimeout(l, timers, timerId, true);
      o.timers[0].id == timerId && Filter(o.timers, Unmarked) == [o.timers[0]] + Filter(timers, Unmarked)
  {
    var t := StartAliveTimeout(l, timers, timerId, true).timers[0];
    assert StartAliveTimeout(l, timers, timerId, true).timers == [t] + timers;
    assert Unmarked(t);
    FilterConcat([t], timers, Unmarked);
    assert Filter([t], Unmarked) == [t] by { assert [t][..0] == []; }
  }

  /** Once the main loop has swept, the start timer that
      `_remove_start_timeout` cancelled is gone and every other timer is
      still there, in order. */
  lemma StartTimerSwept(l: Log, timers: seq<Timer>)
    requires l.startTimer.Some?
    requires forall i :: 0 <= i < |timers| ==> !timers[i].removeMe
    ensures Filter(RemoveStartTimeout(l, timers).timers, Unmarked) == Filter(timers, OtherThan(l.startTimer.value))
  {
    DeleteThenSweep(timers, l.startTimer.value);
  }

  datatype Check = Check(keep: bool, restarted: bool, log: Log, timers: seq<Timer>)

  /**
    `_alive_timeout`: when nothing was written since the previous check
    the log is stopped and started again (with `fd`, `timerId` and
    `created` describing that start); the current write total is then
    remembered and the timer always stays armed.
  */
  function AliveCheck(l: Log, timers: seq<Timer>, fd: int, timerId: nat, created: bool): (c: Check)
    ensures c.keep
    ensures c.restarted <==> l.writeTotal == l.checkedTotal
    ensures c.log.checkedTotal == l.writeTotal && c.log.writeTotal == l.writeTotal
    ensures !c.restarted ==> c.log == l.(checkedTotal := l.writeTotal) && c.timers == timers
    ensures c.restarted ==>
      var s := Stop(l, timers);
      var o := Start(s.log, s.timers, fd, timerId, created);
      c.log == o.log.(checkedTotal := l.writeTotal) && c.timers == o.timers
  {
    if l.checkedTotal == l.writeTotal then
      var s := Stop(l, timers);
      var o := Start(s.log, s.timers, fd, timerId, created);
      Check(true, true, o.log.(checkedTotal := l.writeTotal), o.timers)
    else
      Check(true, false, l.(checkedTotal := l.writeTotal), timers)
  }

  /** A restart cancels the liveness timer itself: although the callback
      asks to stay armed, the sweep removes that timer, and the check only
      resumes once a new start acknowledgement arms a new one. */
  lemma RestartDropsAliveTimer(l: Log, timers: seq<Timer>, fd: int, timerId: nat, created: bool)
    requires l.writeTotal == l.checkedTotal && l.aliveTimer.Some?
    requires timerId != l.aliveTimer.value
    ensures
      var c := AliveCheck(l, timers, fd, timerId, created);
      c.restarted && c.log.aliveTimer == None &&
      forall i :: 0 <= i < |c.timers| && c.timers[i].id == l.aliveTimer.value ==> c.timers[i].removeMe
  {
    var s := Stop(l, timers);
    var o := Start(s.log, s.timers, fd, timerId, created);
    if o.ok {
      assert o.timers == [o.timers[0]] + s.timers;
      forall i | 0 <= i < |o.timers| && o.timers[i].id == l.aliveTimer.value
        ensures o.timers[i].removeMe
      {
        assert i > 0;
        assert o.timers[i] == s.timers[i - 1];
      }
    }
  }

  /** Two checks with no write in between: the second one restarts. */
  lemma IdleIntervalRestarts(l: Log, timers: seq<Timer>, fd: int, timerId: nat, created: bool,
                             timers': seq<Timer>, fd': int, timerId': nat, created': bool)
    ensures
      var c := AliveCheck(l, timers, fd, timerId, created);
      AliveCheck(c.log, timers', fd', timerId', created').restarted
  {
  }

  /** The endpoint as constructed: closed, no timers, nothing written. */
  function Initial(): (l: Log)
    ensures l.file == -1 && l.startTimer.None? && l.aliveTimer.None? && l.writeTotal == l.checkedTotal
  {
    Log(-1, None, None, 0, 0, 0)
  }
}
