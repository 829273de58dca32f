/** The rotating logger: a record goes to the open file, and old files are removed from the directory. */
module Logger {
  import opened Options
  import opened Bytes
  import opened Sequences
  import opened LogRetention

  datatype OpenFile = OpenFile(time: int, size: nat)

  datatype FileInfo = FileInfo(time: int, size: nat)

  function InfosOf(dir: seq<LogFile>): (q: seq<FileInfo>)
    ensures |q| == |dir| && forall k :: 0 <= k < |dir| ==> q[k] == FileInfo(dir[k].time, |dir[k].data|)
  {
    seq(|dir|, k requires 0 <= k < |dir| => FileInfo(dir[k].time, |dir[k].data|))
  }

  class XLogger {
    const limits: Limits
    var dir: seq<LogFile>
    var f: Option<OpenFile>

    constructor (limits: Limits, dir: seq<LogFile>)
      requires InOrder(dir)
      ensures Valid() && this.limits == limits && Now() == Log(dir, false)
    {
      this.limits, this.dir, f := limits, dir, None;
    }

    /** The open file is the youngest one, and its size is known. */
    ghost predicate Valid()
      reads this
    {
      InOrder(dir) && (f.Some? ==> dir != [] && f.value == OpenFile(Last(dir).time, |Last(dir).data|))
    }

    ghost function Now(): Log
      reads this
    {
      Log(dir, f.Some?)
    }

    /** Removes the file of a name. */
    method RemoveFile(time: int, ghost at: nat)
      requires InOrder(dir) && at < |dir| && dir[at].time == time
      modifies this`dir
      ensures dir == old(dir)[..at] + old(dir)[at+1..]
    {
      var k := 0;
      while dir[k].time != time
        invariant k <= at
      {
        k := k + 1;
      }
      dir := dir[..k] + dir[k+1..];
    }

    /** How many of the oldest files of the queue go. */
    method CountOutdated(fiq: seq<FileInfo>, amb: int, now: int) returns (i: nat)
      requires fiq == InfosOf(dir) && (limits.mb > 0 ==> amb >= 0)
      ensures i == Outdated(limits, dir, amb, now)
    {
      i := 0;
      if limits.mb > 0 && |fiq| > amb { i := |fiq| - amb; }
      if limits.ma > 0 {
        ghost var from := i;
        var threshold := now - limits.ma;
        while i < |fiq|
          invariant i <= |fiq| && FirstYoung(limits.ma, dir, i, now) == FirstYoung(limits.ma, dir, from, now)
        {
          if fiq[i].time > threshold { break; }
          i := i + 1;
        }
      }
    }

    /** Removes the files that are beyond the number or too old. */
    method CleanUp(amb: int, now: int)
      requires InOrder(dir) && (limits.mb > 0 ==> amb >= 0)
      modifies this`dir
      ensures dir == CleanedUp(limits, old(dir), amb, now) && InOrder(dir)
    {
      var fiq := InfosOf(dir);
      var i := CountOutdated(fiq, amb, now);
      var removes := fiq[..i];
      var k := 0;
      while k < |removes|
        invariant k <= i && dir == Without(old(dir), k) && InOrder(dir)
      {
        WithoutAt(old(dir), k, 0);
        WithoutNext(old(dir), k);
        WithoutKeeps(old(dir), k + 1);
        RemoveFile(removes[k].time, 0);
        k := k + 1;
      }
    }

    /** Opens the youngest file, if there is one. */
    method OpenLast()
      requires InOrder(dir) && f == None
      modifies this`f
      ensures Valid() && (f == None <==> dir == [])
    {
      var fiq := InfosOf(dir);
      if fiq != [] {
        var fi := fiq[|fiq|-1];
        f := Some(OpenFile(fi.time, fi.size));
      }
    }

    method CreateFile(time: int)
      requires InOrder(dir) && AllBefore(dir, time)
      modifies this
      ensures Valid() && dir == WithFile(old(dir), time) && f == Some(OpenFile(time, 0))
    {
      dir := dir + [LogFile(time, [])];
      f := Some(OpenFile(time, 0));
    }

    /** Appends to the open file. */
    method Append(b: seq<Byte>)
      requires Valid() && f.Some?
      modifies this
      ensures Valid() && f.Some? && dir == WithRecord(old(dir), b)
    {
      dir := dir[|dir|-1 := dir[|dir|-1].(data := dir[|dir|-1].data + b)];
      f := Some(f.value.(size := f.value.size + |b|));
    }

    /** Opens the youngest file, and makes a new one if there is none or it has reached its size. */
    method Prepare(c: Clock)
      requires Valid() && AllBefore(dir, c.created)
      modifies this
      ensures Valid() && f.Some? && dir == Prepared(limits, old(Now()), c)
    {
      CleanedUpBefore(limits, dir, limits.mb, c.first, c.created);
      if f.None? {
        CleanUp(limits.mb, c.first);
        OpenLast();
      }
      assert dir == Opened(limits, old(Now()), c);
      if f.None? || (limits.ms > 0 && f.value.size >= limits.ms) {
        f := None;
        CleanedUpBefore(limits, dir, limits.mb - 1, c.second, c.created);
        CleanUp(limits.mb - 1, c.second);
        CreateFile(c.created);
      }
    }

    method Write(b: seq<Byte>, c: Clock)
      requires Valid() && AllBefore(dir, c.created)
      modifies this
      ensures Valid() && Now() == LogRetention.Write(limits, old(Now()), b, c)
      ensures IsWrite(limits, old(Now()), b, c, dir)
    {
      WriteIs(limits, Now(), b, c);
      Prepare(c);
      Append(b);
    }
  }
}
