/**
 * OpenPGPCrypto: encrypts or decrypts a batch of files through an OpenPGP
 * provider service, one file after the other, keeping the outputs it names
 * in newFiles. The provider, the service binding and the file system are
 * the environment: the binding is a function from poll number to "bound",
 * the provider and the file-system calls a FileOutcome per file, and the file
 * system itself the set of existing paths, held in the object.
 */
module Crypto {
  import opened Wrappers
  import opened OutputPath
  import opened ProviderResult
  import opened Batch
  import KeyIds

  /** Both waits leave their loop once the counter exceeds this bound (`i > 1000`). */
  const WaitCap: nat := 1000

  /** How a call ends: with a boolean, or with the StringIndexOutOfBoundsException of a decrypt path without ".gpg". */
  datatype Returns = Returned(value: bool) | ThrowsIndexOutOfBounds

  function ReturnOf(e: End): Returns
  {
    match e
    case Completed => Returned(true)
    case Aborted(_) => Returned(false)
    case Threw => ThrowsIndexOutOfBounds
  }

  /**
   * The poll at which waitForServiceBound's loop stops, its counter starting
   * at `i`: the first poll from `i` on that finds the service bound, or poll
   * WaitCap + 1, after which the counter check breaks the loop.
   */
  function BoundWaitExit(ready: nat -> bool, i: nat): (k: nat)
    requires i <= WaitCap + 1
    ensures i <= k <= WaitCap + 1
    ensures ready(k) || k == WaitCap + 1
    ensures forall j :: i <= j < k ==> !ready(j)
    decreases WaitCap + 1 - i
  {
    if ready(i) || i > WaitCap then i else BoundWaitExit(ready, i + 1)
  }

  /** Once bound, the service stays bound. */
  ghost predicate StaysBound(ready: nat -> bool)
  {
    forall j: nat :: ready(j) ==> ready(j + 1)
  }

  lemma {:induction false} StaysBoundFrom(ready: nat -> bool, a: nat, b: nat)
    requires StaysBound(ready) && a <= b && ready(a)
    ensures ready(b)
    decreases b - a
  {
    if a < b {
      StaysBoundFrom(ready, a + 1, b);
    }
  }

  /**
   * With a service that stays bound once bound, waitForServiceBound answers
   * whether the service is bound by the poll after the last the loop may
   * make: waiting longer would change nothing, waiting less would miss a
   * binding.
   */
  lemma BoundWaitVerdict(ready: nat -> bool)
    requires StaysBound(ready)
    ensures ready(BoundWaitExit(ready, 0) + 1) == ready(WaitCap + 2)
  {
    var k := BoundWaitExit(ready, 0);
    if ready(k) {
      StaysBoundFrom(ready, k, k + 1);
      StaysBoundFrom(ready, k, WaitCap + 2);
    }
  }

  class OpenPgpCrypto {
    /** The recipients' key ids, parsed from the preference at construction. */
    const keyIds: seq<int>
    /** The package name of the provider. */
    const provider: string
    var successFlag: bool
    var errorFlag: bool
    /** The batch of the last call that got past the service wait. */
    var files: seq<Path>
    /** The outputs of that batch, one appended per file attempted. */
    var newFiles: seq<Path>
    /** The file system: the set of paths that exist. */
    var disk: set<Path>

    constructor (keyIds: seq<int>, provider: string, disk: set<Path>)
      ensures this.keyIds == keyIds && this.provider == provider && this.disk == disk
      ensures !successFlag && !errorFlag && files == [] && newFiles == []
    {
      this.keyIds := keyIds;
      this.provider := provider;
      this.disk := disk;
      successFlag, errorFlag := false, false;
      files, newFiles := [], [];
    }

    /**
     * The public constructor: reads the key ids from the comma-separated
     * preference and fails (None, for the NumberFormatException) when a
     * field is not a long.
     */
    static method Create(keyIdsStr: string, provider: string, disk: set<Path>) returns (r: Option<OpenPgpCrypto>)
      ensures var pieces := KeyIds.SplitOnComma(keyIdsStr);
        r.None? <==> exists k :: 0 <= k < |pieces| && KeyIds.ParseLong(pieces[k]).None?
      ensures r.Some? ==> fresh(r.value) && r.value.provider == provider && r.value.disk == disk
      ensures r.Some? ==> var pieces := KeyIds.SplitOnComma(keyIdsStr);
        && |r.value.keyIds| == |pieces|
        && forall k :: 0 <= k < |pieces| ==> KeyIds.ParseLong(pieces[k]) == Some(r.value.keyIds[k])
      ensures r.Some? ==> var c := r.value;
        !c.successFlag && !c.errorFlag && c.files == [] && c.newFiles == []
    {
      var ids := KeyIds.ParseKeyIds(keyIdsStr);
      if ids.None? {
        return None;
      }
      var c := new OpenPgpCrypto(ids.value, provider, disk);
      return Some(c);
    }

    /** What encrypt, decrypt and handleFiles do to the object and return. */
    twostate predicate HandledFiles(mode: Mode, filesList: seq<Path>, ready: nat -> bool,
                                    outcomes: seq<FileOutcome>, r: Returns)
      requires |outcomes| == |filesList|
      reads this
    {
      if !ready(BoundWaitExit(ready, 0) + 1) then
        r == Returned(false) && unchanged(this)
      else
        var t := BatchRun(mode, filesList, outcomes, old(disk), old(successFlag));
        && r == ReturnOf(t.end)
        && files == filesList && newFiles == t.newFiles && disk == t.disk
        && successFlag == t.flags.success && errorFlag == t.flags.error
    }

    /** encrypt(filesList): the batch with the key ids, each output the input with ".gpg" appended. */
    method Encrypt(filesList: seq<Path>, ready: nat -> bool, outcomes: seq<FileOutcome>) returns (r: Returns)
      requires |outcomes| == |filesList|
      modifies this
      ensures HandledFiles(Mode.Encrypt, filesList, ready, outcomes, r)
      ensures r != ThrowsIndexOutOfBounds
    {
      r := HandleFiles(Mode.Encrypt, filesList, ready, outcomes);
      BatchOutputs(Mode.Encrypt, filesList, outcomes, old(disk), old(successFlag));
    }

    /** decrypt(files): the batch, each output the input cut at its last ".gpg". */
    method Decrypt(filesList: seq<Path>, ready: nat -> bool, outcomes: seq<FileOutcome>) returns (r: Returns)
      requires |outcomes| == |filesList|
      modifies this
      ensures HandledFiles(Mode.Decrypt, filesList, ready, outcomes, r)
    {
      r := HandleFiles(Mode.Decrypt, filesList, ready, outcomes);
    }

    /**
     * handleFiles: give up, touching nothing (newFiles still holds the
     * previous batch), unless the service gets bound; otherwise take the
     * batch, clear newFiles and run doAction.
     */
    method HandleFiles(mode: Mode, filesList: seq<Path>, ready: nat -> bool, outcomes: seq<FileOutcome>)
      returns (r: Returns)
      requires |outcomes| == |filesList|
      modifies this
      ensures HandledFiles(mode, filesList, ready, outcomes, r)
    {
      var bound := WaitForServiceBound(ready);
      if !bound {
        return Returned(false);
      }
      files := filesList;
      newFiles := [];
      r := DoAction(mode, outcomes);
    }

    /**
     * doAction: clear errorFlag, then for each file in order record its
     * output in newFiles, open input and output, hand the reply to
     * handleResult, wait, and either stop (false) or go on; true at the end.
     */
    method DoAction(mode: Mode, outcomes: seq<FileOutcome>) returns (r: Returns)
      requires |outcomes| == |files|
      modifies this`successFlag, this`errorFlag, this`newFiles, this`disk
      ensures var t := DoActionRun(mode, files, outcomes, old(newFiles), old(disk), Flags(old(successFlag), false));
        && r == ReturnOf(t.end)
        && newFiles == t.newFiles && disk == t.disk
        && successFlag == t.flags.success && errorFlag == t.flags.error
    {
      errorFlag := false;
      NamesAligned(mode, files, outcomes);
      ghost var names := Names(mode, files);
      ghost var whole := Run(mode, files, names, outcomes, 0, newFiles, disk, Flags(successFlag, false));
      if |files| > 0 {
        var i := 0;
        while i < |files|
          invariant 0 <= i <= |files|
          invariant !errorFlag
          invariant whole == Run(mode, files, names, outcomes, i, newFiles, disk, Flags(successFlag, errorFlag))
          decreases |files| - i
        {
          var stop := DoFile(mode, outcomes, i, names, whole);
          if stop.Some? {
            return stop.value;
          }
          i := i + 1;
        }
      }
      return Returned(true);
    }

    /**
     * The body of doAction's loop for files[i]: derive and record its output,
     * then try it. None when the loop goes on; otherwise what doAction returns.
     */
    method DoFile(mode: Mode, outcomes: seq<FileOutcome>, i: nat, ghost names: seq<Option<Path>>, ghost whole: Trace)
      returns (stop: Option<Returns>)
      requires |outcomes| == |files| && i < |files| && names == Names(mode, files) && Aligned(files, names, outcomes)
      requires !errorFlag && whole == Run(mode, files, names, outcomes, i, newFiles, disk, Flags(successFlag, errorFlag))
      modifies this`successFlag, this`errorFlag, this`newFiles, this`disk
      ensures stop.None? ==> !errorFlag && whole == Run(mode, files, names, outcomes, i + 1, newFiles, disk, Flags(successFlag, errorFlag))
      ensures stop.Some? ==>
        && stop.value == ReturnOf(whole.end)
        && newFiles == whole.newFiles && disk == whole.disk
        && successFlag == whole.flags.success && errorFlag == whole.flags.error
    {
      var file := files[i];
      var o := outcomes[i];
      var out: Path;
      match OutputFor(mode, file) {
        case None =>
          return Some(ThrowsIndexOutOfBounds);
        case Some(p) =>
          out := p;
      }
      RunStep(mode, files, names, outcomes, i, newFiles, disk, Flags(successFlag, errorFlag));
      newFiles := newFiles + [out];
      var next := TryFile(mode, file, out, o);
      if !next {
        return Some(Returned(false));
      }
      return None;
    }

    /**
     * One pass of doAction's loop after the output has been recorded: the
     * try block on input and output, then, when encrypting, the deletion of
     * the plaintext. `next` is whether the loop goes on; on false doAction
     * returns false.
     */
    method TryFile(mode: Mode, file: Path, out: Path, o: FileOutcome) returns (next: bool)
      requires out != file
      modifies this`successFlag, this`errorFlag, this`disk
      ensures var s := Attempt(mode, file, out, o, old(disk), old(Flags(successFlag, errorFlag)));
        next == s.Next? && disk == s.disk && Flags(successFlag, errorFlag) == s.flags
    {
      if file !in disk || o.fault == InputOpenFails {
        return false;
      }
      if o.fault == OutputOpenFails {
        return false;
      }
      disk := disk + {out};
      HandleResult(o.response);
      var sleeps := WaitForResult();
      if errorFlag {
        if o.fault == OutputCloseFails {
          return false;
        }
        if o.outputDeleted {
          disk := disk - {out};
        }
        return false;
      }
      if o.fault == OutputCloseFails {
        return false;
      }
      if mode == Mode.Encrypt {
        if !o.inputDeleted {
          return false;
        }
        disk := disk - {file};
      }
      return true;
    }

    /** getNewFiles: a fresh array holding newFiles. */
    method GetNewFiles() returns (a: array<Path>)
      ensures fresh(a) && a[..] == newFiles
    {
      a := new Path[|newFiles|](k requires 0 <= k < |newFiles| reads this => newFiles[k]);
    }

    /**
     * waitForServiceBound: poll the binding until it is there or the counter
     * passes WaitCap, then report one more poll. `ready(k)` is what the k-th
     * poll of the binding finds; the 100 ms sleeps are dropped.
     */
    method WaitForServiceBound(ready: nat -> bool) returns (bound: bool)
      ensures bound == ready(BoundWaitExit(ready, 0) + 1)
      ensures (forall j :: 0 <= j <= WaitCap + 2 ==> !ready(j)) ==> !bound
      ensures ready(0) && ready(1) ==> bound
    {
      var i := 0;
      while !ready(i)
        invariant 0 <= i <= WaitCap + 1
        invariant BoundWaitExit(ready, i) == BoundWaitExit(ready, 0)
        decreases WaitCap + 1 - i
      {
        if i > WaitCap {
          break;
        }
        i := i + 1;
      }
      bound := ready(i + 1);
    }

    /**
     * waitForResult: sleep until a flag is raised or the counter passes
     * WaitCap. Nothing raises a flag meanwhile, so it returns at once when
     * handleResult raised one and after WaitCap + 2 sleeps otherwise.
     */
    method WaitForResult() returns (sleeps: nat)
      ensures sleeps == if successFlag || errorFlag then 0 else WaitCap + 2
    {
      var i := 0;
      sleeps := 0;
      while !successFlag && !errorFlag
        invariant 0 <= i <= WaitCap + 1
        invariant sleeps == i
        invariant successFlag || errorFlag ==> sleeps == 0
        decreases WaitCap + 1 - i
      {
        sleeps := sleeps + 1;
        if i > WaitCap {
          break;
        }
        i := i + 1;
      }
    }

    /**
     * handleResult: reset successFlag, then switch on the result code
     * (ERROR when absent): SUCCESS raises successFlag; USER_INTERACTION_REQUIRED
     * raises errorFlag when there is no intent and otherwise sends the intent
     * to the host (a failure to send is only logged); ERROR raises errorFlag;
     * any other code changes nothing more.
     */
    method HandleResult(result: Response)
      modifies this`successFlag, this`errorFlag
      ensures Flags(successFlag, errorFlag) == AfterResult(result, old(Flags(successFlag, errorFlag)))
    {
      successFlag := false;
      var code := ResultCode(result);
      if code == ResultCodeSuccess {
        successFlag := true;
      } else if code == ResultCodeUserInteractionRequired {
        if result.intent.None? {
          errorFlag := true;
          return;
        }
      } else if code == ResultCodeError {
        errorFlag := true;
      }
    }
  }
}
