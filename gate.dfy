/** The file-creation gate of uniquefs: the global counter `nbfiles`, the cap on it, the name-length
    limit, and the directory operations `create`, `mknod`, `unlink` and `rename` that consult them. */
module Gate {
  import opened Kernel
  import opened Inodes

  /** `UNIQUEFS_NAME_MAX`: longest name, in bytes, that `create` and `rename` accept. */
  const NAME_MAX: nat := 32

  /** `MAX_NB_FILES`: the cap on `nbfiles` that `create` enforces. */
  const MAX_NB_FILES: int := 1

  /** The result of one directory operation: its return code, the counter afterwards and the
      inode it bound to the directory entry, if any. */
  datatype Reply = Reply(ret: int, nbfiles: int, inode: Option<Inode>)

  /** `uniquefs_mknod`: build an inode for the entry; `-ENOSPC` when no inode could be had.
      The counter is not consulted and not changed. */
  function MknodResult(nbfiles: int, mode: Mode, dev: Dev, inodeAvailable: bool): (r: Reply)
    ensures r.nbfiles == nbfiles
    ensures r.ret == 0 <==> inodeAvailable
    ensures r.ret != 0 ==> r.ret == -ENOSPC && r.inode == None
    ensures r.ret == 0 ==> r.inode == Some(KindOf(mode, dev))
  {
    var inode := GetInode(mode, dev, inodeAvailable);
    Reply(if inode.Some? then 0 else -ENOSPC, nbfiles, inode)
  }

  /** `uniquefs_create`: the cap and the file type are checked before the name length, and the
      counter moves only when the inode was actually made. */
  function CreateResult(nbfiles: int, name: Name, mode: Mode, inodeAvailable: bool): (r: Reply)
    // error precedence: -EPERM before -ENAMETOOLONG before the outcome of mknod
    ensures r.ret == -EPERM <==> nbfiles >= MAX_NB_FILES || !IsRegular(mode)
    ensures r.ret == -ENAMETOOLONG <==>
              nbfiles < MAX_NB_FILES && IsRegular(mode) && |name| > NAME_MAX
    ensures r.ret == -ENOSPC <==>
              nbfiles < MAX_NB_FILES && IsRegular(mode) && |name| <= NAME_MAX && !inodeAvailable
    ensures r.ret == 0 <==>
              nbfiles < MAX_NB_FILES && IsRegular(mode) && |name| <= NAME_MAX && inodeAvailable
    // exactly one increment, and only on success
    ensures r.nbfiles == if r.ret == 0 then nbfiles + 1 else nbfiles
    ensures r.ret == 0 ==> r.inode == Some(RegularFile)
    ensures r.ret != 0 ==> r.inode == None
    // the cap is never overshot
    ensures nbfiles <= MAX_NB_FILES ==> r.nbfiles <= MAX_NB_FILES
  {
    if nbfiles >= MAX_NB_FILES || !IsRegular(mode) then
      Reply(-EPERM, nbfiles, None)
    else if |name| > NAME_MAX then
      Reply(-ENAMETOOLONG, nbfiles, None)
    else
      RegularBitIsRedundant(mode, 0);
      var made := MknodResult(nbfiles, mode | S_IFREG, 0, inodeAvailable);
      Reply(made.ret, if made.ret == 0 then nbfiles + 1 else nbfiles, made.inode)
  }

  /** `uniquefs_unlink`: the host's `simple_unlink` result is passed through, and the counter
      drops by one exactly when it is 0, whichever way the file was made. */
  function UnlinkResult(nbfiles: int, hostResult: int): (r: Reply)
    ensures r.ret == hostResult && r.inode == None
    ensures r.nbfiles == if hostResult == 0 then nbfiles - 1 else nbfiles
    ensures r.nbfiles <= nbfiles
  {
    Reply(hostResult, if hostResult == 0 then nbfiles - 1 else nbfiles, None)
  }

  /** `uniquefs_rename`: only the new name's length is checked; otherwise the host's
      `simple_rename` result is returned. The counter is never touched. */
  function RenameResult(nbfiles: int, newName: Name, hostResult: int): (r: Reply)
    ensures r.nbfiles == nbfiles && r.inode == None
    ensures |newName| > NAME_MAX ==> r.ret == -ENAMETOOLONG
    ensures |newName| <= NAME_MAX ==> r.ret == hostResult
  {
    Reply(if |newName| > NAME_MAX then -ENAMETOOLONG else hostResult, nbfiles, None)
  }

  /** One request to the directory operations table, with the outcomes of the host calls it
      makes given as data. `.mknod` is in the table, so a caller can reach it directly. */
  datatype Request =
    | CreateOp(name: Name, mode: Mode, inodeAvailable: bool)
    | MknodOp(mode: Mode, dev: Dev, inodeAvailable: bool)
    | UnlinkOp(hostResult: int)
    | RenameOp(newName: Name, hostResult: int)

  /** How much one request with return code `ret` is meant to move the counter: up one for a
      successful create, down one for a successful unlink, nothing otherwise. */
  function Delta(req: Request, ret: int): int {
    if ret != 0 then 0
    else if req.CreateOp? then 1
    else if req.UnlinkOp? then -1
    else 0
  }

  /** The effect of one request on the counter. */
  function Step(nbfiles: int, req: Request): (r: Reply)
    ensures r.nbfiles == nbfiles + Delta(req, r.ret)
    ensures nbfiles <= MAX_NB_FILES ==> r.nbfiles <= MAX_NB_FILES
  {
    match req
    case CreateOp(name, mode, ok) => CreateResult(nbfiles, name, mode, ok)
    case MknodOp(mode, dev, ok) => MknodResult(nbfiles, mode, dev, ok)
    case UnlinkOp(res) => UnlinkResult(nbfiles, res)
    case RenameOp(newName, res) => RenameResult(nbfiles, newName, res)
  }

  /** The return codes of a run of requests, in order, and the counter at its end. */
  datatype Trace = Trace(rets: seq<int>, nbfiles: int)

  /** Sum of `Delta` over a run of requests and their return codes. */
  function Net(reqs: seq<Request>, rets: seq<int>): int
    requires |reqs| == |rets|
  {
    if reqs == [] then 0 else Delta(reqs[0], rets[0]) + Net(reqs[1..], rets[1..])
  }

  /** Serve the requests one after another, starting from counter `nbfiles`. The counter ends
      at its start value plus one for every successful create and minus one for every
      successful unlink, and nothing else moves it. */
  function Run(nbfiles: int, reqs: seq<Request>): (t: Trace)
    ensures |t.rets| == |reqs|
    ensures t.nbfiles == nbfiles + Net(reqs, t.rets)
    decreases |reqs|
  {
    if reqs == [] then Trace([], nbfiles)
    else
      var first := Step(nbfiles, reqs[0]);
      var rest := Run(first.nbfiles, reqs[1..]);
      assert ([first.ret] + rest.rets)[1..] == rest.rets;
      Trace([first.ret] + rest.rets, rest.nbfiles)
  }

  /** The cap holds across any run of requests that starts within it. */
  lemma {:induction false} CounterBoundedAbove(nbfiles: int, reqs: seq<Request>)
    requires nbfiles <= MAX_NB_FILES
    ensures Run(nbfiles, reqs).nbfiles <= MAX_NB_FILES
    decreases |reqs|
  {
    if reqs != [] {
      CounterBoundedAbove(Step(nbfiles, reqs[0]).nbfiles, reqs[1..]);
    }
  }

  /** A FIFO made through `.mknod` is not counted, yet unlinking it is: from the initial state the
      counter goes to -1, so no lower bound of 0 holds. */
  lemma CounterHasNoLowerBound()
    ensures Run(0, [MknodOp(S_IFIFO | 0x1A4, 0, true), UnlinkOp(0)]) == Trace([0, 0], -1)
  {
  }

  /** After such a mknod/unlink pair, creates of two different names in a row both succeed,
      although the cap is one. */
  lemma BypassAdmitsTwoCreates(first: Name, second: Name, mode: Mode)
    requires first != second
    requires |first| <= NAME_MAX && |second| <= NAME_MAX && IsRegular(mode)
    ensures Run(0, [MknodOp(S_IFIFO | 0x1A4, 0, true), UnlinkOp(0),
                    CreateOp(first, mode, true), CreateOp(second, mode, true)])
            == Trace([0, 0, 0, 0], 1)
  {
    var reqs := [MknodOp(S_IFIFO | 0x1A4, 0, true), UnlinkOp(0),
                 CreateOp(first, mode, true), CreateOp(second, mode, true)];
    assert Run(0, reqs[3..]) == Trace([0], 1);
    assert Run(-1, reqs[2..]) == Trace([0, 0], 1);
    assert Run(0, reqs[1..]) == Trace([0, 0, 0], 1);
  }

  /** The directory operations over the global counter of created files. */
  class UniqueFs {
    /** `nbfiles`: files made through `create` minus files removed through `unlink`. */
    var nbfiles: int

    constructor ()
      ensures nbfiles == 0
    {
      nbfiles := 0;
    }

    /** `uniquefs_mknod`; it neither reads nor changes the counter. */
    method Mknod(mode: Mode, dev: Dev, inodeAvailable: bool) returns (ret: int, inode: Option<Inode>)
      ensures Reply(ret, nbfiles, inode) == MknodResult(nbfiles, mode, dev, inodeAvailable)
    {
      inode := GetInode(mode, dev, inodeAvailable);
      ret := -ENOSPC;
      if inode.Some? {
        ret := 0;
      }
    }

    /** `uniquefs_create`. */
    method Create(name: Name, mode: Mode, inodeAvailable: bool) returns (ret: int, inode: Option<Inode>)
      modifies this
      ensures Reply(ret, nbfiles, inode) == CreateResult(old(nbfiles), name, mode, inodeAvailable)
      ensures nbfiles == if ret == 0 then old(nbfiles) + 1 else old(nbfiles)
      ensures old(nbfiles) <= MAX_NB_FILES ==> nbfiles <= MAX_NB_FILES
    {
      if nbfiles >= MAX_NB_FILES || !IsRegular(mode) {
        return -EPERM, None;
      }
      if |name| > NAME_MAX {
        return -ENAMETOOLONG, None;
      }
      RegularBitIsRedundant(mode, 0);
      ret, inode := Mknod(mode | S_IFREG, 0, inodeAvailable);
      if ret == 0 {
        nbfiles := nbfiles + 1;
      }
    }

    /** `uniquefs_unlink`, given the result of the host's `simple_unlink`. */
    method Unlink(hostResult: int) returns (ret: int)
      modifies this
      ensures Reply(ret, nbfiles, None) == UnlinkResult(old(nbfiles), hostResult)
      ensures ret == hostResult
      ensures nbfiles == if ret == 0 then old(nbfiles) - 1 else old(nbfiles)
    {
      ret := hostResult;
      if ret == 0 {
        nbfiles := nbfiles - 1;
      }
    }

    /** `uniquefs_rename`, given the result of the host's `simple_rename`; the counter is
        outside its frame. */
    method Rename(newName: Name, hostResult: int) returns (ret: int)
      ensures |newName| > NAME_MAX ==> ret == -ENAMETOOLONG
      ensures |newName| <= NAME_MAX ==> ret == hostResult
    {
      if |newName| > NAME_MAX {
        return -ENAMETOOLONG;
      }
      ret := hostResult;
    }

    /** Any request, served by the method that handles it. */
    method Serve(req: Request) returns (ret: int)
      modifies this
      ensures ret == Step(old(nbfiles), req).ret
      ensures nbfiles == Step(old(nbfiles), req).nbfiles
    {
      var inode: Option<Inode>;
      match req
      case CreateOp(name, mode, ok) => ret, inode := Create(name, mode, ok);
      case MknodOp(mode, dev, ok) => ret, inode := Mknod(mode, dev, ok);
      case UnlinkOp(res) => ret := Unlink(res);
      case RenameOp(newName, res) => ret := Rename(newName, res);
    }
  }
}
