/** The file server as the client's four callbacks see it (client_src/netfs.cpp:361-456),
    each call one atomic step, with other clients free to act before every step. */
module Servers {
  import opened FlatFile
  import opened CachedFile

  datatype ServerFile = ServerFile(content: seq<Byte>, mode: nat, time: nat)

  type Files = map<string, ServerFile>

  /** The messages that change a file, in the order the server receives them. */
  datatype Request =
    | ContentWritten(name: string, offset: nat, data: seq<Byte>)
    | SizeWritten(name: string, size: nat)

  const ENOENT := 2
  const EIO := 5

  /** Every file outside `except` is untouched or carries a time later than `clock`. */
  predicate Evolved(files: Files, clock: nat, files': Files, except: set<string>) {
    forall g <- files' :: g !in except ==> (g in files && files'[g] == files[g]) || clock < files'[g].time
  }

  predicate TimesPassed(files: Files, clock: nat) {
    forall g <- files :: files[g].time <= clock
  }

  class Server {
    /** No other client changes anything during the run. */
    const alone: bool
    /** No request on an existing file fails during the run. */
    const reliable: bool

    var files: Files
    var clock: nat
    ghost var log: seq<Request>
    /** How many requests were refused. */
    ghost var refusals: nat

    ghost predicate Valid()
      reads this
    {
      TimesPassed(files, clock)
    }

    constructor (alone: bool, reliable: bool, files: Files, clock: nat)
      requires TimesPassed(files, clock)
      ensures Valid() && this.alone == alone && this.reliable == reliable
      ensures this.files == files && this.clock == clock && log == [] && refusals == 0
    {
      this.alone, this.reliable, this.files, this.clock := alone, reliable, files, clock;
      this.log, this.refusals := [], 0;
    }

    /** At most one request was refused, the one that `err` reports. */
    twostate predicate Refused(err: int)
      reads this
    {
      refusals == old(refusals) + if err == 0 then 0 else 1
    }

    /** Any number of steps by other clients. */
    method OthersAct()
      requires Valid()
      modifies this
      ensures Valid() && old(clock) <= clock && log == old(log) && refusals == old(refusals)
      ensures Evolved(old(files), old(clock), files, {})
      ensures alone ==> files == old(files) && clock == old(clock)
    {
      var files': Files := *;
      var clock': nat := *;
      if !alone && clock <= clock' && Evolved(files, clock, files', {}) && TimesPassed(files', clock') {
        files, clock := files', clock';
      }
    }

    /** May the server refuse this request? */
    method Refuses(name: string) returns (err: int)
      modifies this`refusals
      ensures Refused(err)
      ensures reliable && name in files ==> err == 0
      ensures name !in files ==> err != 0
    {
      var fault: bool := *;
      if name !in files {
        err := ENOENT;
      } else if !reliable && fault {
        err := EIO;
      } else {
        err := 0;
      }
      refusals := refusals + if err == 0 then 0 else 1;
    }

    /** The file gets new contents and a time no one has seen before. */
    method Change(name: string, content: seq<Byte>)
      requires Valid() && name in files
      modifies this
      ensures Valid() && clock == old(clock) + 1 && log == old(log) && refusals == old(refusals)
      ensures files == old(files)[name := old(files)[name].(content := content, time := clock)]
    {
      clock := clock + 1;
      files := files[name := files[name].(content := content, time := clock)];
    }

    /** NetFS::do_write: detects a foreign change by its time, or any failure, and marks the file stale. */
    method WriteContent(name: string, offset: nat, data: seq<Byte>, cached: nat, stale: bool)
      returns (err: int, cached': nat, stale': bool)
      requires Valid() && cached <= clock
      modifies this
      ensures Valid() && old(clock) <= clock && Refused(err)
      ensures log == old(log) + [ContentWritten(name, offset, data)]
      ensures Evolved(old(files), old(clock), files, {name}) && Evolved(old(files), old(clock), files, {})
      ensures cached' <= clock
      ensures stale ==> stale'
      ensures err != 0 ==> stale'
      ensures err == 0 ==> name in files && cached' == files[name].time && old(clock) < cached'
      ensures !stale' ==>
                && name in old(files) && old(files)[name].time == cached
                && files[name].content == PWrite(old(files)[name].content, offset, data)
      ensures alone ==> files.Keys == old(files).Keys && forall g <- files :: g != name ==> files[g] == old(files)[g]
      ensures alone && reliable && name in old(files) ==>
                err == 0 && (stale' <==> stale || old(files)[name].time != cached)
    {
      OthersAct();
      err := Refuses(name);
      if err != 0 {
        var partly: seq<Byte> := *;
        if name in files {
          Change(name, partly);
        }
        stale', cached' := true, cached;
      } else {
        var before := files[name].time;
        Change(name, PWrite(files[name].content, offset, data));
        stale' := stale || before != cached;
        cached' := files[name].time;
      }
      log := log + [ContentWritten(name, offset, data)];
    }

    /** NetFS::do_write_attr: the same for a change of size. */
    method WriteAttr(name: string, attr: FileAttr, stale: bool)
      returns (err: int, attr': FileAttr, stale': bool)
      requires Valid() && attr.time <= clock
      modifies this
      ensures Valid() && old(clock) <= clock && Refused(err)
      ensures log == old(log) + [SizeWritten(name, attr.size)]
      ensures Evolved(old(files), old(clock), files, {name}) && Evolved(old(files), old(clock), files, {})
      ensures attr' == attr.(time := attr'.time) && attr'.time <= clock
      ensures stale ==> stale'
      ensures err != 0 ==> stale'
      ensures err == 0 ==> name in files && attr'.time == files[name].time && old(clock) < attr'.time
      ensures !stale' ==>
                && name in old(files) && old(files)[name].time == attr.time
                && files[name].content == Resize(old(files)[name].content, attr.size)
      ensures alone ==> files.Keys == old(files).Keys && forall g <- files :: g != name ==> files[g] == old(files)[g]
      ensures alone && reliable && name in old(files) ==>
                err == 0 && (stale' <==> stale || old(files)[name].time != attr.time)
    {
      OthersAct();
      err := Refuses(name);
      if err != 0 {
        var partly: seq<Byte> := *;
        if name in files {
          Change(name, partly);
        }
        stale', attr' := true, attr;
      } else {
        var before := files[name].time;
        Change(name, Resize(files[name].content, attr.size));
        stale' := stale || before != attr.time;
        attr' := attr.(time := files[name].time);
      }
      log := log + [SizeWritten(name, attr.size)];
    }

    /** NetFS::do_read. */
    method ReadContent(name: string, offset: nat, size: nat) returns (err: int, data: seq<Byte>)
      requires Valid()
      modifies this
      ensures Valid() && old(clock) <= clock && log == old(log) && Refused(err)
      ensures Evolved(old(files), old(clock), files, {})
      ensures |data| <= size
      ensures err == 0 ==> name in files && data == PRead(files[name].content, offset, size)
      ensures alone ==> files == old(files)
      ensures alone && reliable && name in old(files) ==> err == 0
    {
      OthersAct();
      err := Refuses(name);
      if err == 0 {
        data := PRead(files[name].content, offset, size);
      } else {
        data := [];
      }
    }

    /** NetFS::do_read_attr. */
    method ReadAttr(name: string) returns (err: int, attr: FileAttr)
      requires Valid()
      modifies this
      ensures Valid() && old(clock) <= clock && log == old(log) && Refused(err)
      ensures Evolved(old(files), old(clock), files, {})
      ensures err == 0 ==>
                && name in files
                && attr == FileAttr(|files[name].content|, files[name].mode, files[name].time)
      ensures alone ==> files == old(files) && (name !in old(files) ==> err != 0)
      ensures alone && reliable && name in old(files) ==> err == 0
    {
      OthersAct();
      err := Refuses(name);
      if err == 0 {
        attr := FileAttr(|files[name].content|, files[name].mode, files[name].time);
      } else {
        attr := FileAttr(0, 0, 0);
      }
    }

    /** The answer to NetFS::access. */
    method Access(name: string) returns (err: int, time: nat)
      requires Valid()
      modifies this
      ensures Valid() && old(clock) <= clock && log == old(log) && Refused(err)
      ensures Evolved(old(files), old(clock), files, {})
      ensures err == 0 ==> name in files && time == files[name].time
      ensures alone ==> files == old(files)
      ensures alone && reliable && name in old(files) ==> err == 0
    {
      OthersAct();
      err := Refuses(name);
      time := if err == 0 then files[name].time else 0;
    }

    /** The server side of NetFS::create: the file exists afterwards, empty. */
    method Create(name: string) returns (err: int)
      requires Valid()
      modifies this
      ensures Valid() && old(clock) <= clock && log == old(log) && Refused(err)
      ensures Evolved(old(files), old(clock), files, {})
      ensures err == 0 ==> name in files && files[name].content == [] && old(clock) < files[name].time
      ensures alone && err == 0 ==> files == old(files)[name := files[name]]
      ensures alone && reliable ==> err == 0
    {
      OthersAct();
      var fault: bool := *;
      if !reliable && fault {
        refusals := refusals + 1;
        return EIO;
      }
      clock := clock + 1;
      files := files[name := ServerFile([], if name in files then files[name].mode else 0, clock)];
      return 0;
    }

    /** The server side of NetFS::unlink. */
    method Unlink(name: string) returns (err: int)
      requires Valid()
      modifies this
      ensures Valid() && old(clock) <= clock && log == old(log) && Refused(err)
      ensures Evolved(old(files), old(clock), files, {})
      ensures err == 0 ==> name !in files
      ensures alone ==> files == if err == 0 then old(files) - {name} else old(files)
      ensures alone ==> (name !in old(files) ==> err != 0) && (reliable && name in old(files) ==> err == 0)
    {
      OthersAct();
      err := Refuses(name);
      if err == 0 {
        files := files - {name};
      }
    }
  }
}
