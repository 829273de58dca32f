/** A directory of log files under limits for their size, number and age, on values. */
module LogRetention {
  import opened Bytes
  import opened Sequences

  datatype LogFile = LogFile(time: int, data: seq<Byte>)

  /** Limits of zero are none. */
  datatype Limits = Limits(ms: nat, mb: nat, ma: nat)

  /** The clock readings of a write: at its two cleanups, and for the name of a new file. */
  datatype Clock = Clock(first: int, second: int, created: int)

  /** The files, oldest first; `open`: the last one is open for writing. */
  datatype Log = Log(dir: seq<LogFile>, open: bool)

  predicate InOrder(dir: seq<LogFile>) { forall j, k :: 0 <= j < k < |dir| ==> dir[j].time < dir[k].time }

  predicate IsOld(f: LogFile, ma: nat, now: int) { ma > 0 && f.time <= now - ma }

  /** How many of the oldest files go: all beyond `amb` of them, and then while they are too old. */
  function Outdated(l: Limits, dir: seq<LogFile>, amb: int, now: int): (i: nat)
    requires l.mb > 0 ==> amb >= 0
    ensures i <= |dir|
  {
    FirstYoung(l.ma, dir, if l.mb > 0 && |dir| > amb then |dir| - amb else 0, now)
  }

  /** The first file from index `k` on that is not too old. */
  function FirstYoung(ma: nat, dir: seq<LogFile>, k: nat, now: int): (i: nat)
    requires k <= |dir|
    ensures k <= i <= |dir|
    decreases |dir| - k
  {
    if k < |dir| && IsOld(dir[k], ma, now) then FirstYoung(ma, dir, k + 1, now) else k
  }

  /** The files without the oldest `n`. */
  function Without(dir: seq<LogFile>, n: nat): (r: seq<LogFile>)
    requires n <= |dir|
    ensures |r| == |dir| - n
  {
    if n == 0 then dir else Without(dir[1..], n - 1)
  }

  function CleanedUp(l: Limits, dir: seq<LogFile>, amb: int, now: int): seq<LogFile>
    requires l.mb > 0 ==> amb >= 0
  {
    Without(dir, Outdated(l, dir, amb, now))
  }

  lemma {:induction false} WithoutAt(dir: seq<LogFile>, n: nat, k: nat)
    requires n + k < |dir|
    ensures Without(dir, n)[k] == dir[n+k]
  {
    if n > 0 { WithoutAt(dir[1..], n - 1, k); }
  }

  /** No file can take the next record: there is none, or the last one has reached its size. */
  predicate NeedsFile(l: Limits, dir: seq<LogFile>) { dir == [] || (l.ms > 0 && |Last(dir).data| >= l.ms) }

  /** The files, cleaned up first if none is open. */
  function Opened(l: Limits, s: Log, c: Clock): seq<LogFile> {
    if s.open then s.dir else CleanedUp(l, s.dir, l.mb, c.first)
  }

  function WithFile(dir: seq<LogFile>, time: int): seq<LogFile> { dir + [LogFile(time, [])] }

  /** The files with a new one, after another cleanup. */
  function Rotated(l: Limits, dir: seq<LogFile>, c: Clock): seq<LogFile> {
    WithFile(CleanedUp(l, dir, l.mb - 1, c.second), c.created)
  }

  /** The files before a record is written. */
  function Prepared(l: Limits, s: Log, c: Clock): (dir: seq<LogFile>)
    ensures dir != []
  {
    if NeedsFile(l, Opened(l, s, c)) then Rotated(l, Opened(l, s, c), c) else Opened(l, s, c)
  }

  function WithRecord(dir: seq<LogFile>, b: seq<Byte>): seq<LogFile>
    requires dir != []
  {
    dir[|dir|-1 := Last(dir).(data := Last(dir).data + b)]
  }

  function Write(l: Limits, s: Log, b: seq<Byte>, c: Clock): Log {
    Log(WithRecord(Prepared(l, s, c), b), true)
  }

  lemma {:induction false} WithoutNext(dir: seq<LogFile>, n: nat)
    requires n < |dir|
    ensures Without(dir, n)[1..] == Without(dir, n + 1)
  {
    if n > 0 { WithoutNext(dir[1..], n - 1); }
  }

  // ----- cleaning up

  /** Exactly the files beyond the number, and those that are too old, go. */
  lemma OutdatedIff(l: Limits, dir: seq<LogFile>, amb: int, now: int, k: nat)
    requires InOrder(dir) && k < |dir| && (l.mb > 0 ==> amb >= 0)
    ensures k < Outdated(l, dir, amb, now) <==> (l.mb > 0 && k < |dir| - amb) || IsOld(dir[k], l.ma, now)
  {
    FirstYoungIff(l.ma, dir, if l.mb > 0 && |dir| > amb then |dir| - amb else 0, now, k);
  }

  lemma {:induction false} FirstYoungIff(ma: nat, dir: seq<LogFile>, from: nat, now: int, k: nat)
    requires InOrder(dir) && from <= |dir| && k < |dir|
    ensures k < FirstYoung(ma, dir, from, now) <==> k < from || IsOld(dir[k], ma, now)
    decreases |dir| - from
  {
    if from < |dir| {
      assert k > from ==> dir[from].time < dir[k].time;
      if IsOld(dir[from], ma, now) { FirstYoungIff(ma, dir, from + 1, now, k); }
    }
  }

  /**
   `left` is what a cleanup leaves of `dir`: a file goes exactly if it is one of the oldest beyond `amb`, or
   has reached the age limit.
   */
  predicate IsLeft(l: Limits, dir: seq<LogFile>, amb: int, now: int, left: seq<LogFile>) {
    && |left| <= |dir| && left == dir[|dir| - |left|..]
    && forall k :: 0 <= k < |dir| ==>
         (k < |dir| - |left| <==> (l.mb > 0 && k < |dir| - amb) || (l.ma > 0 && dir[k].time <= now - l.ma))
  }

  lemma CleanedUpIsLeft(l: Limits, dir: seq<LogFile>, amb: int, now: int)
    requires InOrder(dir) && (l.mb > 0 ==> amb >= 0)
    ensures IsLeft(l, dir, amb, now, CleanedUp(l, dir, amb, now))
  {
    var n, left := Outdated(l, dir, amb, now), CleanedUp(l, dir, amb, now);
    forall k | 0 <= k < |left| ensures left[k] == dir[n..][k] { WithoutAt(dir, n, k); }
    assert left == dir[n..];
    forall k | 0 <= k < |dir|
      ensures k < n <==> (l.mb > 0 && k < |dir| - amb) || (l.ma > 0 && dir[k].time <= now - l.ma)
    {
      OutdatedIff(l, dir, amb, now, k);
    }
  }

  // ----- what the files hold

  function Text(dir: seq<LogFile>): seq<Byte> { if dir == [] then [] else dir[0].data + Text(dir[1..]) }

  lemma {:induction false} TextOn(a: seq<LogFile>, b: seq<LogFile>)
    ensures Text(a + b) == Text(a) + Text(b)
  {
    if a == [] {
      assert a + b == b;
    } else {
      assert (a + b)[1..] == a[1..] + b;
      TextOn(a[1..], b);
    }
  }

  lemma {:induction false} TextSuffix(dir: seq<LogFile>, n: nat)
    requires n <= |dir|
    ensures IsSuffix(Text(Without(dir, n)), Text(dir))
  {
    if n > 0 {
      TextSuffix(dir[1..], n - 1);
      SuffixTrans(Text(Without(dir, n)), Text(dir[1..]), Text(dir));
    }
  }

  lemma TextRecord(dir: seq<LogFile>, b: seq<Byte>)
    requires dir != []
    ensures Text(WithRecord(dir, b)) == Text(dir) + b
  {
    var front, f := dir[..|dir|-1], Last(dir);
    assert dir == front + [f] && WithRecord(dir, b) == front + [f.(data := f.data + b)];
    TextOn(front, [f]);
    TextOn(front, [f.(data := f.data + b)]);
    assert [f][1..] == [] && [f.(data := f.data + b)][1..] == [];
  }

  // ----- one write

  /** The clock goes on: a new file is younger than all others. */
  predicate AllBefore(dir: seq<LogFile>, t: int) { forall k :: 0 <= k < |dir| ==> dir[k].time < t }

  /** What holds once the first record has been written. */
  predicate Settled(l: Limits, s: Log) {
    InOrder(s.dir) && (s.open ==> s.dir != [] && (l.mb > 0 ==> |s.dir| <= l.mb))
  }

  lemma WithoutKeeps(dir: seq<LogFile>, n: nat)
    requires n <= |dir|
    ensures InOrder(dir) ==> InOrder(Without(dir, n))
  {
    forall k | 0 <= k < |dir| - n ensures Without(dir, n)[k] == dir[n+k] { WithoutAt(dir, n, k); }
  }

  lemma CleanedUpKeeps(l: Limits, dir: seq<LogFile>, amb: int, now: int)
    requires l.mb > 0 ==> amb >= 0
    ensures IsSuffix(Text(CleanedUp(l, dir, amb, now)), Text(dir))
    ensures l.mb > 0 ==> |CleanedUp(l, dir, amb, now)| <= amb
    ensures InOrder(dir) ==> InOrder(CleanedUp(l, dir, amb, now))
  {
    TextSuffix(dir, Outdated(l, dir, amb, now));
    WithoutKeeps(dir, Outdated(l, dir, amb, now));
  }

  lemma WithFileKeeps(dir: seq<LogFile>, time: int)
    ensures Text(WithFile(dir, time)) == Text(dir)
    ensures InOrder(dir) && AllBefore(dir, time) ==> InOrder(WithFile(dir, time))
  {
    var f := LogFile(time, []);
    TextOn(dir, [f]);
    assert [f][1..] == [] && Text([f]) == [];
  }

  lemma RotatedKeeps(l: Limits, dir: seq<LogFile>, c: Clock)
    ensures IsSuffix(Text(Rotated(l, dir, c)), Text(dir)) && (l.mb > 0 ==> |Rotated(l, dir, c)| <= l.mb)
    ensures InOrder(dir) && AllBefore(dir, c.created) ==> InOrder(Rotated(l, dir, c))
  {
    if AllBefore(dir, c.created) { CleanedUpBefore(l, dir, l.mb - 1, c.second, c.created); }
    CleanedUpKeeps(l, dir, l.mb - 1, c.second);
    WithFileKeeps(CleanedUp(l, dir, l.mb - 1, c.second), c.created);
  }

  lemma PreparedKeeps(l: Limits, s: Log, c: Clock)
    ensures IsSuffix(Text(Prepared(l, s, c)), Text(s.dir))
    ensures Settled(l, s) && AllBefore(s.dir, c.created) ==>
      InOrder(Prepared(l, s, c)) && (l.mb > 0 ==> |Prepared(l, s, c)| <= l.mb)
  {
    var dir := Opened(l, s, c);
    if AllBefore(s.dir, c.created) { CleanedUpBefore(l, s.dir, l.mb, c.first, c.created); }
    CleanedUpKeeps(l, s.dir, l.mb, c.first);
    RotatedKeeps(l, dir, c);
    SuffixTrans(Text(Prepared(l, s, c)), Text(dir), Text(s.dir));
  }

  /** A write keeps the order and the number, and puts the record at the end of a suffix of what there was. */
  lemma WriteKeeps(l: Limits, s: Log, b: seq<Byte>, c: Clock)
    requires Settled(l, s) && AllBefore(s.dir, c.created)
    ensures Settled(l, Write(l, s, b, c))
    ensures IsSuffix(Text(Write(l, s, b, c).dir), Text(s.dir) + b)
    ensures l.ms > 0 ==> |Last(Prepared(l, s, c)).data| < l.ms
  {
    PreparedKeeps(l, s, c);
    TextRecord(Prepared(l, s, c), b);
    SuffixOn(Text(Prepared(l, s, c)), Text(s.dir), b);
  }

  /** The last file goes on with the record. */
  predicate GoesOn(dir: seq<LogFile>, b: seq<Byte>, after: seq<LogFile>) {
    && |after| == |dir| > 0 && after[..|dir|-1] == dir[..|dir|-1]
    && after[|dir|-1] == LogFile(dir[|dir|-1].time, dir[|dir|-1].data + b)
  }

  /** A record goes to the open file, and nothing else changes, unless that has reached its size. */
  lemma WriteGoesOn(l: Limits, s: Log, b: seq<Byte>, c: Clock)
    requires s.open && s.dir != [] && (l.ms == 0 || |Last(s.dir).data| < l.ms)
    ensures GoesOn(s.dir, b, Write(l, s, b, c).dir) && Write(l, s, b, c).open
  {
  }

  /** Where the record goes, of the files found: to the last one, or to a new one after a cleanup that makes room. */
  ghost predicate IsWritten(l: Limits, found: seq<LogFile>, b: seq<Byte>, c: Clock, after: seq<LogFile>) {
    if found != [] && (l.ms == 0 || |Last(found).data| < l.ms) then GoesOn(found, b, after)
    else exists left :: IsLeft(l, found, l.mb - 1, c.second, left) && after == left + [LogFile(c.created, b)]
  }

  /**
   Any write: if no file is open, the directory is cleaned up first and the youngest file opened; if there is
   none, or it has reached its size, the record goes to a new file, after a cleanup that makes room for it.
   */
  ghost predicate IsWrite(l: Limits, s: Log, b: seq<Byte>, c: Clock, after: seq<LogFile>) {
    if s.open then IsWritten(l, s.dir, b, c, after)
    else exists found :: IsLeft(l, s.dir, l.mb, c.first, found) && IsWritten(l, found, b, c, after)
  }

  lemma WriteIs(l: Limits, s: Log, b: seq<Byte>, c: Clock)
    requires InOrder(s.dir)
    ensures IsWrite(l, s, b, c, Write(l, s, b, c).dir)
  {
    var found := Opened(l, s, c);
    CleanedUpIsLeft(l, s.dir, l.mb, c.first);
    CleanedUpKeeps(l, s.dir, l.mb, c.first);
    WrittenIs(l, found, b, c);
  }

  lemma WrittenIs(l: Limits, found: seq<LogFile>, b: seq<Byte>, c: Clock)
    requires InOrder(found)
    ensures IsWritten(l, found, b, c, WithRecord(if NeedsFile(l, found) then Rotated(l, found, c) else found, b))
  {
    CleanedUpIsLeft(l, found, l.mb - 1, c.second);
    NewFileHolds(CleanedUp(l, found, l.mb - 1, c.second), c.created, b);
    RecordGoesOn(found, b);
  }

  lemma NewFileHolds(left: seq<LogFile>, time: int, b: seq<Byte>)
    ensures WithRecord(WithFile(left, time), b) == left + [LogFile(time, b)]
  {
    assert [] + b == b;
  }

  lemma RecordGoesOn(dir: seq<LogFile>, b: seq<Byte>)
    ensures dir != [] ==> GoesOn(dir, b, WithRecord(dir, b))
  {
  }

  // ----- runs

  datatype Record = Record(data: seq<Byte>, clock: Clock)

  function Writes(l: Limits, s: Log, rs: seq<Record>): Log
    decreases |rs|
  {
    if rs == [] then s else Writes(l, Write(l, s, rs[0].data, rs[0].clock), rs[1..])
  }

  function DataOf(rs: seq<Record>): seq<Byte> { if rs == [] then [] else rs[0].data + DataOf(rs[1..]) }

  /** Every new file of the run would be younger than all files before it. */
  predicate Ticks(dir: seq<LogFile>, rs: seq<Record>) {
    && (forall j, k :: 0 <= j < k < |rs| ==> rs[j].clock.created < rs[k].clock.created)
    && (rs != [] ==> AllBefore(dir, rs[0].clock.created))
  }

  lemma TicksOn(l: Limits, s: Log, rs: seq<Record>)
    requires rs != [] && Ticks(s.dir, rs)
    ensures Ticks(Write(l, s, rs[0].data, rs[0].clock).dir, rs[1..])
  {
    var c := rs[0].clock;
    if |rs| > 1 {
      PreparedFrom(l, s, c);
    }
  }

  /** Every file is an old one or the new one. */
  lemma PreparedFrom(l: Limits, s: Log, c: Clock)
    requires AllBefore(s.dir, c.created)
    ensures AllBefore(Prepared(l, s, c), c.created + 1)
  {
    CleanedUpBefore(l, s.dir, l.mb, c.first, c.created);
    CleanedUpBefore(l, Opened(l, s, c), l.mb - 1, c.second, c.created);
    WithFileBefore(CleanedUp(l, Opened(l, s, c), l.mb - 1, c.second), c.created);
  }

  lemma CleanedUpBefore(l: Limits, dir: seq<LogFile>, amb: int, now: int, t: int)
    requires (l.mb > 0 ==> amb >= 0) && AllBefore(dir, t)
    ensures AllBefore(CleanedUp(l, dir, amb, now), t)
  {
    var i := Outdated(l, dir, amb, now);
    forall k | 0 <= k < |dir| - i ensures Without(dir, i)[k].time < t { WithoutAt(dir, i, k); }
  }

  lemma WithFileBefore(dir: seq<LogFile>, t: int)
    requires AllBefore(dir, t)
    ensures AllBefore(WithFile(dir, t), t + 1)
  {
  }

  /**
   Over any run: the files, one after the other, hold a suffix of what there was at first and of
   all that was written, and after the first record there are never more of them than allowed.
   */
  lemma {:induction false} RunKeeps(l: Limits, s: Log, rs: seq<Record>)
    requires Settled(l, s) && Ticks(s.dir, rs)
    ensures Settled(l, Writes(l, s, rs))
    ensures IsSuffix(Text(Writes(l, s, rs).dir), Text(s.dir) + DataOf(rs))
    ensures rs != [] && l.mb > 0 ==> |Writes(l, s, rs).dir| <= l.mb
    decreases |rs|
  {
    if rs == [] {
      assert Text(s.dir) + [] == Text(s.dir);
    } else {
      var t, b := Write(l, s, rs[0].data, rs[0].clock), rs[0].data;
      WriteKeeps(l, s, b, rs[0].clock);
      TicksOn(l, s, rs);
      RunKeeps(l, t, rs[1..]);
      OpenStays(l, t, rs[1..]);
      SuffixChain(Text(Writes(l, s, rs).dir), Text(t.dir), Text(s.dir), b, DataOf(rs[1..]));
    }
  }

  lemma {:induction false} OpenStays(l: Limits, s: Log, rs: seq<Record>)
    requires s.open
    ensures Writes(l, s, rs).open
    decreases |rs|
  {
    if rs != [] { OpenStays(l, Write(l, s, rs[0].data, rs[0].clock), rs[1..]); }
  }

  /**
   Of the files that a write after any run leaves, none but the last one had reached the age limit at the
   last cleanup of the write.
   */
  lemma OldAreGone(l: Limits, s: Log, rs: seq<Record>, b: seq<Byte>, c: Clock)
    requires Settled(l, s) && Ticks(s.dir, rs) && l.ma > 0 && AllBefore(Writes(l, s, rs).dir, c.created)
    ensures var t := Writes(l, s, rs);
      && (!t.open ==> NoneOlder(Write(l, t, b, c).dir, c.first - l.ma))
      && (Last(Write(l, t, b, c).dir).time == c.created ==> NoneOlder(Write(l, t, b, c).dir, c.second - l.ma))
  {
    RunKeeps(l, s, rs);
    var t := Writes(l, s, rs);
    WriteIs(l, t, b, c);
    if t.open {
      WrittenYoung(l, t.dir, b, c, Write(l, t, b, c).dir);
    } else {
      CleanedYoung(l, t.dir, b, c, Write(l, t, b, c).dir);
    }
  }

  /** All but the last file are younger. */
  predicate NoneOlder(dir: seq<LogFile>, t: int) { forall k :: 0 <= k < |dir| - 1 ==> dir[k].time > t }

  lemma CleanedYoung(l: Limits, dir: seq<LogFile>, b: seq<Byte>, c: Clock, e: seq<LogFile>)
    requires IsWrite(l, Log(dir, false), b, c, e) && l.ma > 0 && AllBefore(dir, c.created)
    ensures e != [] && NoneOlder(e, c.first - l.ma) && (Last(e).time == c.created ==> NoneOlder(e, c.second - l.ma))
  {
    var found :| IsLeft(l, dir, l.mb, c.first, found) && IsWritten(l, found, b, c, e);
    YoungLeft(l, dir, l.mb, c.first, found);
    WrittenYoung(l, found, b, c, e);
    StaysYoung(l, found, b, c, e, c.first - l.ma);
  }

  lemma WrittenYoung(l: Limits, found: seq<LogFile>, b: seq<Byte>, c: Clock, e: seq<LogFile>)
    requires IsWritten(l, found, b, c, e) && l.ma > 0 && AllBefore(found, c.created)
    ensures e != [] && (Last(e).time == c.created ==> NoneOlder(e, c.second - l.ma))
  {
    if found == [] || (l.ms > 0 && |Last(found).data| >= l.ms) {
      var left :| IsLeft(l, found, l.mb - 1, c.second, left) && e == left + [LogFile(c.created, b)];
      YoungLeft(l, found, l.mb - 1, c.second, left);
    }
  }

  lemma StaysYoung(l: Limits, found: seq<LogFile>, b: seq<Byte>, c: Clock, e: seq<LogFile>, t: int)
    requires IsWritten(l, found, b, c, e) && forall k :: 0 <= k < |found| ==> found[k].time > t
    ensures NoneOlder(e, t)
  {
    if found != [] && (l.ms == 0 || |Last(found).data| < l.ms) {
      forall k | 0 <= k < |e| - 1 ensures e[k] == found[k] { assert e[..|e|-1][k] == found[..|e|-1][k]; }
    } else {
      var left :| IsLeft(l, found, l.mb - 1, c.second, left) && e == left + [LogFile(c.created, b)];
      LeftAt(l, found, l.mb - 1, c.second, left);
    }
  }

  lemma LeftAt(l: Limits, dir: seq<LogFile>, amb: int, now: int, left: seq<LogFile>)
    requires IsLeft(l, dir, amb, now, left)
    ensures forall k :: 0 <= k < |left| ==> left[k] == dir[|dir| - |left| + k]
  {
  }

  lemma YoungLeft(l: Limits, dir: seq<LogFile>, amb: int, now: int, left: seq<LogFile>)
    requires IsLeft(l, dir, amb, now, left) && l.ma > 0
    ensures forall k :: 0 <= k < |left| ==> left[k].time > now - l.ma
    ensures forall t :: AllBefore(dir, t) ==> AllBefore(left, t)
  {
    LeftAt(l, dir, amb, now, left);
    forall k | 0 <= k < |left| ensures left[k].time > now - l.ma {
      assert left[k] == dir[|dir| - |left| + k];
    }
  }

  /** Without a limit for the age, nothing is lost if files have no size limit, or are not limited in number. */
  lemma {:induction false} NothingLost(l: Limits, s: Log, rs: seq<Record>)
    requires l.ma == 0 && (l.ms == 0 || l.mb == 0) && s.open && s.dir != []
    ensures var e := Writes(l, s, rs); e.open && e.dir != [] && Text(e.dir) == Text(s.dir) + DataOf(rs)
    ensures l.ms == 0 ==> |Writes(l, s, rs).dir| == |s.dir|
    decreases |rs|
  {
    if rs == [] {
      assert Text(s.dir) + [] == Text(s.dir);
    } else {
      var b, c := rs[0].data, rs[0].clock;
      TextRecord(Prepared(l, s, c), b);
      if NeedsFile(l, s.dir) {
        assert CleanedUp(l, s.dir, l.mb - 1, c.second) == s.dir;
        WithFileKeeps(s.dir, c.created);
      }
      NothingLost(l, Write(l, s, b, c), rs[1..]);
      Regroup(Text(s.dir), b, DataOf(rs[1..]));
    }
  }

  /** From an empty directory, all that was written is there, without a size limit in a single file. */
  lemma RunLosesNothing(l: Limits, rs: seq<Record>)
    requires l.ma == 0 && (l.ms == 0 || l.mb == 0)
    ensures Text(Writes(l, Log([], false), rs).dir) == DataOf(rs)
    ensures l.ms == 0 && rs != [] ==> |Writes(l, Log([], false), rs).dir| == 1
  {
    if rs != [] {
      FirstWrite(l, rs[0].data, rs[0].clock);
      NothingLost(l, Write(l, Log([], false), rs[0].data, rs[0].clock), rs[1..]);
    }
  }

  // ----- how much is kept

  /** Every file but the last one has reached its size. */
  predicate AllFull(l: Limits, dir: seq<LogFile>) { forall k :: 0 <= k < |dir| - 1 ==> |dir[k].data| >= l.ms }

  /** Of `all` that was written nothing is lost, or there are as many files as allowed, all full but the last. */
  predicate Keeps(l: Limits, s: Log, all: seq<Byte>) {
    AllFull(l, s.dir) && (s.open ==> s.dir != []) && (Text(s.dir) == all || |s.dir| == l.mb)
  }

  lemma WriteLoses(l: Limits, s: Log, b: seq<Byte>, c: Clock, all: seq<Byte>)
    requires l.ms > 0 && l.mb > 0 && l.ma == 0 && s.open && |s.dir| <= l.mb && Keeps(l, s, all)
    ensures Keeps(l, Write(l, s, b, c), all + b) && |Write(l, s, b, c).dir| <= l.mb
  {
    TextRecord(Prepared(l, s, c), b);
    if NeedsFile(l, s.dir) { RotationLoses(l, s.dir, c, all); }
  }

  /** A rotation of full files drops the oldest one only if there are as many as allowed. */
  lemma RotationLoses(l: Limits, dir: seq<LogFile>, c: Clock, all: seq<Byte>)
    requires l.ms > 0 && l.mb > 0 && l.ma == 0 && 0 < |dir| <= l.mb && AllFull(l, dir) && |Last(dir).data| >= l.ms
    requires Text(dir) == all || |dir| == l.mb
    ensures AllFull(l, Rotated(l, dir, c)) && |Rotated(l, dir, c)| <= l.mb
    ensures Text(Rotated(l, dir, c)) == all || |Rotated(l, dir, c)| == l.mb
  {
    var n := if |dir| == l.mb then 1 else 0;
    assert Outdated(l, dir, l.mb - 1, c.second) == n;
    WithFileKeeps(Without(dir, n), c.created);
    forall k | 0 <= k < |dir| - n ensures |Without(dir, n)[k].data| >= l.ms { WithoutAt(dir, n, k); }
  }

  lemma {:induction false} RunLoses(l: Limits, s: Log, rs: seq<Record>, all: seq<Byte>)
    requires l.ms > 0 && l.mb > 0 && l.ma == 0 && s.open && |s.dir| <= l.mb && Keeps(l, s, all)
    ensures Keeps(l, Writes(l, s, rs), all + DataOf(rs))
    decreases |rs|
  {
    if rs == [] {
      assert all + [] == all;
    } else {
      WriteLoses(l, s, rs[0].data, rs[0].clock, all);
      RunLoses(l, Write(l, s, rs[0].data, rs[0].clock), rs[1..], all + rs[0].data);
      Regroup(all, rs[0].data, DataOf(rs[1..]));
    }
  }

  lemma Regroup(a: seq<Byte>, b: seq<Byte>, c: seq<Byte>)
    ensures a + b + c == a + (b + c)
  {
  }

  lemma {:induction false} FullText(l: Limits, dir: seq<LogFile>, n: nat)
    requires AllFull(l, dir) && n == |dir| && n > 0
    ensures |Text(dir)| >= (n - 1) * l.ms
  {
    if n > 1 {
      FullText(l, dir[1..], n - 1);
      assert (n - 1) * l.ms == (n - 2) * l.ms + l.ms;
    }
  }

  /**
   From an empty directory, with a limit for the size and the number of files and none for their
   age: all that was written is still there, or at least as much as all files but one can hold.
   */
  lemma RunRetains(l: Limits, rs: seq<Record>)
    requires l.ms > 0 && l.mb > 0 && l.ma == 0
    ensures var kept := Text(Writes(l, Log([], false), rs).dir);
      kept == DataOf(rs) || |kept| >= (l.mb - 1) * l.ms
  {
    if rs != [] {
      var t := Write(l, Log([], false), rs[0].data, rs[0].clock);
      FirstWrite(l, rs[0].data, rs[0].clock);
      RunLoses(l, t, rs[1..], rs[0].data);
      var e := Writes(l, t, rs[1..]);
      if e.dir != [] { FullText(l, e.dir, |e.dir|); }
    }
  }

  lemma FirstWrite(l: Limits, b: seq<Byte>, c: Clock)
    ensures var t := Write(l, Log([], false), b, c);
      t == Log([LogFile(c.created, b)], true) && Text(t.dir) == b
  {
    assert Prepared(l, Log([], false), c) == [LogFile(c.created, [])];
    assert [] + b == b && b + [] == b && [LogFile(c.created, b)][1..] == [];
  }
}
