/**
 * What one call of OpenPGPCrypto.doAction does, as a function of the batch,
 * of what the environment does with each file, and of the file system before
 * the call. The file system is the set of paths that exist.
 */
module Batch {
  import opened Wrappers
  import opened OutputPath
  import opened ProviderResult

  /** Where, if anywhere, the per-file try block throws an IOException. */
  datatype IoFault =
    | NoFault
    | InputOpenFails     // new FileInputStream(file) throws, although the file exists
    | OutputOpenFails    // new FileOutputStream(outputFilename) throws
    | OutputCloseFails   // closing the output stream throws

  /**
   * What the environment does with one file: the provider's reply, the
   * IOException if any, whether file.delete() on the input succeeds and
   * whether IOUtils.deleteSilently really removes the output.
   */
  datatype FileOutcome = FileOutcome(response: Response, fault: IoFault, inputDeleted: bool, outputDeleted: bool)

  /** Why a batch stopped early (doAction only returns false; the reason is for the proofs). */
  datatype Failure =
    | InputUnreadable    // the input could not be opened: it does not exist, or opening it threw
    | OutputUnwritable   // the output could not be opened
    | ProviderError      // errorFlag was raised; the output was closed and deleted
    | OutputNotClosed    // closing the output threw; the output is left in place
    | InputNotDeleted    // encryption: file.delete() on the plaintext failed

  /** How doAction ends: true, false, or the StringIndexOutOfBoundsException of a decrypt path without ".gpg". */
  datatype End = Completed | Aborted(why: Failure) | Threw

  /** The result of one iteration of doAction's loop: go on, or return false. */
  datatype Step =
    | Next(disk: set<Path>, flags: Flags)
    | Stop(why: Failure, disk: set<Path>, flags: Flags)

  /** The end of a call of doAction: the returned value, newFiles, the file system and the flags. */
  datatype Trace = Trace(end: End, newFiles: seq<Path>, disk: set<Path>, flags: Flags)

  /** The environment lets a file through: no IOException, no error reply and, for encryption, the plaintext deleted. */
  predicate Clean(mode: Mode, o: FileOutcome)
  {
    o.fault == NoFault && !IsErrorReply(o.response) && (mode == Encrypt ==> o.inputDeleted)
  }

  /**
   * One iteration of doAction's loop for `file`, whose output is `out`,
   * after `out` has been appended to newFiles. The output path is never the
   * input path (see OutputPath.OutputFor).
   */
  function Attempt(mode: Mode, file: Path, out: Path, o: FileOutcome, disk: set<Path>, flags: Flags): (s: Step)
    requires out != file
    ensures s.Next? <==> !flags.error && file in disk && Clean(mode, o)
    ensures s.Next? ==> out in s.disk && (mode == Encrypt ==> file !in s.disk) && !s.flags.error
    ensures s.Next? ==> s.disk == if mode == Encrypt then (disk + {out}) - {file} else disk + {out}
    ensures s.Stop? && s.why == ProviderError ==> s.flags.error && (flags.error || IsErrorReply(o.response))
    ensures s.Stop? && s.why == ProviderError && o.outputDeleted ==> out !in s.disk
    ensures s.Stop? && (s.why == InputUnreadable || s.why == OutputUnwritable) ==> s.disk == disk
    ensures s.Stop? && (s.why == OutputNotClosed || s.why == InputNotDeleted) ==> s.disk == disk + {out}
    ensures s.Stop? && s.why == InputNotDeleted ==> file in s.disk && out in s.disk
    ensures !flags.error && s.flags.error ==> s.Stop? && (s.why == ProviderError || s.why == OutputNotClosed)
    ensures file !in disk || o.fault == InputOpenFails || o.fault == OutputOpenFails ==>
      s.Stop? && s.disk == disk && s.flags == flags
    ensures file in disk && o.fault == OutputCloseFails ==>
      s.Stop? && s.why == OutputNotClosed && s.disk == disk + {out}
    ensures file in disk && o.fault == NoFault && AfterResult(o.response, flags).error ==>
      s.Stop? && s.why == ProviderError && s.disk == (if o.outputDeleted then disk - {out} else disk + {out})
    ensures file in disk && o.fault == NoFault && !AfterResult(o.response, flags).error && mode == Encrypt && !o.inputDeleted ==>
      s.Stop? && s.why == InputNotDeleted && s.disk == disk + {out}
  {
    if file !in disk || o.fault == InputOpenFails then Stop(InputUnreadable, disk, flags)
    else if o.fault == OutputOpenFails then Stop(OutputUnwritable, disk, flags)
    else
      var written := disk + {out};
      var after := AfterResult(o.response, flags);
      if after.error then
        if o.fault == OutputCloseFails then Stop(OutputNotClosed, written, after)
        else Stop(ProviderError, if o.outputDeleted then written - {out} else written, after)
      else if o.fault == OutputCloseFails then Stop(OutputNotClosed, written, after)
      else if mode == Encrypt && !o.inputDeleted then Stop(InputNotDeleted, written, after)
      else Next(if mode == Encrypt then written - {file} else written, after)
  }

  /**
   * One attempt touches only the file and its output, and decryption removes
   * nothing but the output.
   */
  lemma AttemptFrame(mode: Mode, file: Path, out: Path, o: FileOutcome, disk: set<Path>, flags: Flags)
    requires out != file
    ensures var s := Attempt(mode, file, out, o, disk, flags);
      && s.disk - {file, out} == disk - {file, out}
      && (mode == Decrypt ==> disk - {out} <= s.disk)
  {
  }

  /** The output path doAction derives for each file of the batch, in order. */
  function Names(mode: Mode, files: seq<Path>): (names: seq<Option<Path>>)
    ensures |names| == |files|
    ensures forall k :: 0 <= k < |files| ==> names[k] == OutputFor(mode, files[k])
  {
    seq(|files|, k requires 0 <= k < |files| => OutputFor(mode, files[k]))
  }

  /** One output name and one outcome per file, no name equal to its own file. */
  predicate Aligned(files: seq<Path>, names: seq<Option<Path>>, outcomes: seq<FileOutcome>)
  {
    && |names| == |files| && |outcomes| == |files|
    && forall k :: 0 <= k < |files| && names[k].Some? ==> names[k].value != files[k]
  }

  lemma NamesAligned(mode: Mode, files: seq<Path>, outcomes: seq<FileOutcome>)
    requires |outcomes| == |files|
    ensures Aligned(files, Names(mode, files), outcomes)
  {
  }

  /**
   * doAction's loop from file `i` on, with newFiles, file system and flags as
   * they are before that file; `names` holds each file's output path, None
   * where deriving it throws.
   */
  function Run(mode: Mode, files: seq<Path>, names: seq<Option<Path>>, outcomes: seq<FileOutcome>, i: nat,
               newFiles: seq<Path>, disk: set<Path>, flags: Flags): (t: Trace)
    requires Aligned(files, names, outcomes) && i <= |files|
    ensures |newFiles| <= |t.newFiles| <= |newFiles| + |files| - i
    ensures forall k :: 0 <= k < |newFiles| ==> t.newFiles[k] == newFiles[k]
    ensures forall k :: |newFiles| <= k < |t.newFiles| ==> names[i + (k - |newFiles|)] == Some(t.newFiles[k])
    decreases |files| - i
  {
    if i == |files| then Trace(Completed, newFiles, disk, flags)
    else match names[i]
      case None => Trace(Threw, newFiles, disk, flags)
      case Some(out) =>
        match Attempt(mode, files[i], out, outcomes[i], disk, flags)
        case Stop(why, d, f) => Trace(Aborted(why), newFiles + [out], d, f)
        case Next(d, f) =>
          var t := Run(mode, files, names, outcomes, i + 1, newFiles + [out], d, f);
          assert t.newFiles[|newFiles|] == (newFiles + [out])[|newFiles|];
          t
  }

  /** One turn of the loop, for a file whose output path can be named. */
  lemma RunStep(mode: Mode, files: seq<Path>, names: seq<Option<Path>>, outcomes: seq<FileOutcome>, i: nat,
                acc: seq<Path>, disk: set<Path>, flags: Flags)
    requires Aligned(files, names, outcomes) && i < |files| && names[i].Some?
    ensures var out := names[i].value;
      var s := Attempt(mode, files[i], out, outcomes[i], disk, flags);
      Run(mode, files, names, outcomes, i, acc, disk, flags)
        == if s.Next? then Run(mode, files, names, outcomes, i + 1, acc + [out], s.disk, s.flags)
           else Trace(Aborted(s.why), acc + [out], s.disk, s.flags)
  {
  }

  /** A file whose output path can be named always gets that output recorded, first. */
  lemma RunRecordsFile(mode: Mode, files: seq<Path>, names: seq<Option<Path>>, outcomes: seq<FileOutcome>, i: nat,
                       acc: seq<Path>, disk: set<Path>, flags: Flags)
    requires Aligned(files, names, outcomes) && i < |files| && names[i].Some?
    ensures var r := Run(mode, files, names, outcomes, i, acc, disk, flags);
      |r.newFiles| > |acc| && r.newFiles[|acc|] == names[i].value
  {
  }

  /** doAction as handleFiles calls it: newFiles just cleared, errorFlag reset. */
  function BatchRun(mode: Mode, files: seq<Path>, outcomes: seq<FileOutcome>, disk: set<Path>, success: bool): Trace
    requires |outcomes| == |files|
  {
    DoActionRun(mode, files, outcomes, [], disk, Flags(success, false))
  }

  /** doAction on the whole batch, from newFiles, file system and flags as they are at the call. */
  function DoActionRun(mode: Mode, files: seq<Path>, outcomes: seq<FileOutcome>,
                       newFiles: seq<Path>, disk: set<Path>, flags: Flags): Trace
    requires |outcomes| == |files|
  {
    NamesAligned(mode, files, outcomes);
    Run(mode, files, Names(mode, files), outcomes, 0, newFiles, disk, flags)
  }

  /**
   * How many outputs the loop records from file `i` on: all when it
   * completes, at least the failing file's when it aborts, none for the
   * file whose output path cannot be derived.
   */
  lemma {:induction false} RunEnds(mode: Mode, files: seq<Path>, names: seq<Option<Path>>, outcomes: seq<FileOutcome>, i: nat,
                                   acc: seq<Path>, disk: set<Path>, flags: Flags)
    requires Aligned(files, names, outcomes) && i <= |files|
    ensures var r := Run(mode, files, names, outcomes, i, acc, disk, flags);
      && (r.end == Completed ==> |r.newFiles| == |acc| + |files| - i)
      && (r.end.Aborted? ==> |r.newFiles| > |acc|)
      && (r.end == Threw ==>
            && i + (|r.newFiles| - |acc|) < |files|
            && names[i + (|r.newFiles| - |acc|)] == None)
    decreases |files| - i
  {
    if i < |files| && names[i].Some? {
      var out := names[i].value;
      var s := Attempt(mode, files[i], out, outcomes[i], disk, flags);
      if s.Next? {
        RunEnds(mode, files, names, outcomes, i + 1, acc + [out], s.disk, s.flags);
      }
    }
  }

  /** newFiles after a batch: at most one entry per input, each the output path of the input at its position. */
  lemma BatchOutputs(mode: Mode, files: seq<Path>, outcomes: seq<FileOutcome>, disk: set<Path>, success: bool)
    requires |outcomes| == |files|
    ensures var r := BatchRun(mode, files, outcomes, disk, success);
      && |r.newFiles| <= |files|
      && (forall k :: 0 <= k < |r.newFiles| ==> OutputFor(mode, files[k]) == Some(r.newFiles[k]))
      && (r.end == Completed ==> |r.newFiles| == |files|)
      && (r.end.Aborted? ==> 1 <= |r.newFiles|)
      && (r.end == Threw ==> |r.newFiles| < |files| && mode == Decrypt && !Contains(files[|r.newFiles|], GpgExt))
  {
    NamesAligned(mode, files, outcomes);
    var names := Names(mode, files);
    var r := Run(mode, files, names, outcomes, 0, [], disk, Flags(success, false));
    assert BatchRun(mode, files, outcomes, disk, success) == r;
    RunEnds(mode, files, names, outcomes, 0, [], disk, Flags(success, false));
    forall k | 0 <= k < |r.newFiles|
      ensures OutputFor(mode, files[k]) == Some(r.newFiles[k])
    {
      assert names[0 + (k - 0)] == Some(r.newFiles[k]);
    }
    if r.end == Threw {
      assert names[|r.newFiles|] == None;
    }
  }


  /**
   * Only attempted files and their outputs change on disk: any other path,
   * such as an input after the failing file, exists afterwards exactly when
   * it existed before.
   */
  lemma {:induction false} RunFrame(mode: Mode, files: seq<Path>, names: seq<Option<Path>>, outcomes: seq<FileOutcome>, i: nat,
                                    acc: seq<Path>, disk: set<Path>, flags: Flags, p: Path)
    requires Aligned(files, names, outcomes) && i <= |files|
    requires var r := Run(mode, files, names, outcomes, i, acc, disk, flags);
      && (forall k :: i <= k < i + (|r.newFiles| - |acc|) && k < |files| ==> files[k] != p)
      && p !in r.newFiles[|acc|..]
    ensures p in Run(mode, files, names, outcomes, i, acc, disk, flags).disk <==> p in disk
    decreases |files| - i
  {
    var r := Run(mode, files, names, outcomes, i, acc, disk, flags);
    if i < |files| && names[i].Some? {
      var out := names[i].value;
      var s := Attempt(mode, files[i], out, outcomes[i], disk, flags);
      RunRecordsFile(mode, files, names, outcomes, i, acc, disk, flags);
      assert r.newFiles[|acc|..][0] == out;
      if s.Next? {
        assert Run(mode, files, names, outcomes, i + 1, acc + [out], s.disk, s.flags) == r;
        assert r.newFiles[|acc| + 1..] == r.newFiles[|acc|..][1..];
        RunFrame(mode, files, names, outcomes, i + 1, acc + [out], s.disk, s.flags, p);
      }
    }
  }

  /** Decryption never deletes anything but the outputs it records: every input stays. */
  lemma {:induction false} DecryptKeepsInputs(files: seq<Path>, names: seq<Option<Path>>, outcomes: seq<FileOutcome>, i: nat,
                                              acc: seq<Path>, disk: set<Path>, flags: Flags, p: Path)
    requires Aligned(files, names, outcomes) && i <= |files|
    requires p in disk && p !in Run(Decrypt, files, names, outcomes, i, acc, disk, flags).newFiles[|acc|..]
    ensures p in Run(Decrypt, files, names, outcomes, i, acc, disk, flags).disk
    decreases |files| - i
  {
    var r := Run(Decrypt, files, names, outcomes, i, acc, disk, flags);
    if i < |files| && names[i].Some? {
      var out := names[i].value;
      var s := Attempt(Decrypt, files[i], out, outcomes[i], disk, flags);
      RunRecordsFile(Decrypt, files, names, outcomes, i, acc, disk, flags);
      assert r.newFiles[|acc|..][0] == out;
      if s.Next? {
        assert Run(Decrypt, files, names, outcomes, i + 1, acc + [out], s.disk, s.flags) == r;
        assert r.newFiles[|acc| + 1..] == r.newFiles[|acc|..][1..];
        DecryptKeepsInputs(files, names, outcomes, i + 1, acc + [out], s.disk, s.flags, p);
      }
    }
  }

  /** No output path of the batch from `i` on is one of its input paths. */
  predicate NoCollision(files: seq<Path>, names: seq<Option<Path>>, i: nat)
    requires |names| == |files|
  {
    forall j, k :: i <= j < |files| && i <= k < |files| ==> names[j] != Some(files[k])
  }

  /**
   * A batch that completes leaves every output in place and, when
   * encrypting, has deleted every input; nothing else changed. This needs
   * that no output is another file's input (a later output would otherwise
   * be deleted as an input, or a deleted input re-created as an output).
   */
  lemma {:induction false} CompletedDisk(mode: Mode, files: seq<Path>, names: seq<Option<Path>>, outcomes: seq<FileOutcome>, i: nat,
                                         acc: seq<Path>, disk: set<Path>, flags: Flags, p: Path)
    requires Aligned(files, names, outcomes) && i <= |files|
    requires NoCollision(files, names, i)
    ensures var r := Run(mode, files, names, outcomes, i, acc, disk, flags);
      r.end == Completed ==>
        (p in r.disk <==> (p in disk || p in r.newFiles[|acc|..]) && !(mode == Encrypt && p in files[i..]))
    decreases |files| - i
  {
    var r := Run(mode, files, names, outcomes, i, acc, disk, flags);
    if i < |files| && names[i].Some? {
      var out := names[i].value;
      var s := Attempt(mode, files[i], out, outcomes[i], disk, flags);
      if s.Next? {
        var acc' := acc + [out];
        assert Run(mode, files, names, outcomes, i + 1, acc', s.disk, s.flags) == r;
        CompletedDisk(mode, files, names, outcomes, i + 1, acc', s.disk, s.flags, p);
        if r.end == Completed {
          RunRecordsFile(mode, files, names, outcomes, i, acc, disk, flags);
          assert r.newFiles[|acc|..] == [out] + r.newFiles[|acc'|..];
          assert files[i..] == [files[i]] + files[i + 1..];
          assert out !in files[i + 1..] by {
            forall k | i + 1 <= k < |files|
              ensures files[k] != out
            {
              assert names[i] != Some(files[k]);
            }
          }
          LaterOutputsAvoid(mode, files, names, outcomes, i, acc', s.disk, s.flags, files[i]);
          CompletedDiskStep(mode, files[i], out, p, disk, s.disk, r.disk, r.newFiles[|acc'|..], files[i + 1..]);
        }
      }
    }
  }

  /**
   * One step of CompletedDisk: what exists after the rest of the batch,
   * given what exists after this file's attempt.
   */
  lemma CompletedDiskStep(mode: Mode, file: Path, out: Path, p: Path, disk: set<Path>, next: set<Path>,
                          after: set<Path>, outs: seq<Path>, later: seq<Path>)
    requires next == if mode == Encrypt then (disk + {out}) - {file} else disk + {out}
    requires p in after <==> (p in next || p in outs) && !(mode == Encrypt && p in later)
    requires out != file && out !in later && file !in outs
    ensures p in after <==> (p in disk || p in [out] + outs) && !(mode == Encrypt && p in [file] + later)
  {
  }

  /** A path that no file after `i` names as output is not among the outputs recorded after file `i`. */
  lemma LaterOutputsAvoid(mode: Mode, files: seq<Path>, names: seq<Option<Path>>, outcomes: seq<FileOutcome>, i: nat,
                          acc: seq<Path>, disk: set<Path>, flags: Flags, x: Path)
    requires Aligned(files, names, outcomes) && i < |files|
    requires forall j :: i < j < |files| ==> names[j] != Some(x)
    ensures x !in Run(mode, files, names, outcomes, i + 1, acc, disk, flags).newFiles[|acc|..]
  {
    OutputsAvoid(files, names, i, |acc|, Run(mode, files, names, outcomes, i + 1, acc, disk, flags).newFiles, x);
  }

  /** Outputs of the files after `i`, in order from position `from` of `outs`, are not `x`. */
  lemma OutputsAvoid(files: seq<Path>, names: seq<Option<Path>>, i: nat, from: nat, outs: seq<Path>, x: Path)
    requires |names| == |files| && i < |files| && from <= |outs| <= from + |files| - (i + 1)
    requires forall j :: i < j < |files| ==> names[j] != Some(x)
    requires forall k :: from <= k < |outs| ==> names[(i + 1) + (k - from)] == Some(outs[k])
    ensures x !in outs[from..]
  {
  }

  /**
   * A batch completes only if errorFlag started clear and the environment
   * let every file through; errorFlag is then still clear.
   */
  lemma {:induction false} CompletedOnlyIfClean(mode: Mode, files: seq<Path>, names: seq<Option<Path>>, outcomes: seq<FileOutcome>, i: nat,
                                                acc: seq<Path>, disk: set<Path>, flags: Flags)
    requires Aligned(files, names, outcomes) && i <= |files|
    ensures var r := Run(mode, files, names, outcomes, i, acc, disk, flags);
      r.end == Completed && i < |files| ==>
        && !flags.error
        && !r.flags.error
        && (forall k :: i <= k < |files| ==> Clean(mode, outcomes[k]))
    decreases |files| - i
  {
    if i < |files| && names[i].Some? {
      var out := names[i].value;
      var s := Attempt(mode, files[i], out, outcomes[i], disk, flags);
      if s.Next? {
        CompletedOnlyIfClean(mode, files, names, outcomes, i + 1, acc + [out], s.disk, s.flags);
      }
    }
  }

  /**
   * Conversely, when every input exists, is distinct from the others (when
   * encrypting, as inputs are deleted on the way) and has an output path, and
   * the environment lets every file through, the batch completes.
   */
  lemma {:induction false} CleanBatchCompletes(mode: Mode, files: seq<Path>, names: seq<Option<Path>>, outcomes: seq<FileOutcome>, i: nat,
                                               acc: seq<Path>, disk: set<Path>, flags: Flags)
    requires Aligned(files, names, outcomes) && i <= |files|
    requires !flags.error
    requires forall k :: i <= k < |files| ==> files[k] in disk && names[k].Some? && Clean(mode, outcomes[k])
    requires mode == Encrypt ==> forall j, k :: i <= j < k < |files| ==> files[j] != files[k]
    ensures Run(mode, files, names, outcomes, i, acc, disk, flags).end == Completed
    decreases |files| - i
  {
    if i < |files| {
      var out := names[i].value;
      var s := Attempt(mode, files[i], out, outcomes[i], disk, flags);
      assert s.Next?;
      AttemptFrame(mode, files[i], out, outcomes[i], disk, flags);
      forall k | i + 1 <= k < |files|
        ensures files[k] in s.disk
      {
        assert files[k] !in {files[i], out} ==> files[k] in disk - {files[i], out};
      }
      CleanBatchCompletes(mode, files, names, outcomes, i + 1, acc + [out], s.disk, s.flags);
    }
  }

  /** Inputs that exist, are pairwise distinct and can all be named, one outcome each. */
  predicate WellFormedBatch(mode: Mode, files: seq<Path>, disk: set<Path>)
  {
    && (forall k :: 0 <= k < |files| ==> files[k] in disk && OutputFor(mode, files[k]).Some?)
    && (forall j, k :: 0 <= j < k < |files| ==> files[j] != files[k])
  }

  /** For a well-formed batch, doAction returns true exactly when the environment lets every file through. */
  lemma BatchCompletesIff(mode: Mode, files: seq<Path>, outcomes: seq<FileOutcome>, disk: set<Path>, success: bool)
    requires |outcomes| == |files|
    requires WellFormedBatch(mode, files, disk)
    ensures BatchRun(mode, files, outcomes, disk, success).end == Completed
            <==> forall k :: 0 <= k < |files| ==> Clean(mode, outcomes[k])
  {
    NamesAligned(mode, files, outcomes);
    var names := Names(mode, files);
    CompletedOnlyIfClean(mode, files, names, outcomes, 0, [], disk, Flags(success, false));
    if forall k :: 0 <= k < |files| ==> Clean(mode, outcomes[k]) {
      CleanBatchCompletes(mode, files, names, outcomes, 0, [], disk, Flags(success, false));
    }
  }

  /** The position in `files` of the last file the loop reached from `i` on, by the outputs it recorded. */
  function LastReached(i: nat, acc: seq<Path>, t: Trace): int
  {
    i + (|t.newFiles| - |acc|) - 1
  }

  /** errorFlag is left raised only by a batch that stopped on it. */
  lemma {:induction false} ErrorOnlyOnStop(mode: Mode, files: seq<Path>, names: seq<Option<Path>>, outcomes: seq<FileOutcome>, i: nat,
                                           acc: seq<Path>, disk: set<Path>, flags: Flags)
    requires Aligned(files, names, outcomes) && i <= |files|
    requires !flags.error
    ensures var r := Run(mode, files, names, outcomes, i, acc, disk, flags);
      r.flags.error ==> r.end == Aborted(ProviderError) || r.end == Aborted(OutputNotClosed)
    decreases |files| - i
  {
    if i < |files| && names[i].Some? {
      var out := names[i].value;
      var s := Attempt(mode, files[i], out, outcomes[i], disk, flags);
      if s.Next? {
        ErrorOnlyOnStop(mode, files, names, outcomes, i + 1, acc + [out], s.disk, s.flags);
      }
    }
  }

  /**
   * A batch that stopped because errorFlag was raised had an error reply
   * for its last attempted file.
   */
  lemma {:induction false} ErrorCleanup(mode: Mode, files: seq<Path>, names: seq<Option<Path>>, outcomes: seq<FileOutcome>, i: nat,
                                        acc: seq<Path>, disk: set<Path>, flags: Flags)
    requires Aligned(files, names, outcomes) && i <= |files|
    requires !flags.error
    ensures var r := Run(mode, files, names, outcomes, i, acc, disk, flags);
      r.end == Aborted(ProviderError) ==>
        && i <= LastReached(i, acc, r) < |files|
        && r.flags.error
        && IsErrorReply(outcomes[LastReached(i, acc, r)].response)
    decreases |files| - i
  {
    var r := Run(mode, files, names, outcomes, i, acc, disk, flags);
    if r.end == Aborted(ProviderError) {
      assert i < |files| && names[i].Some?;
      var out := names[i].value;
      var s := Attempt(mode, files[i], out, outcomes[i], disk, flags);
      RunStep(mode, files, names, outcomes, i, acc, disk, flags);
      if s.Next? {
        var acc' := acc + [out];
        assert Run(mode, files, names, outcomes, i + 1, acc', s.disk, s.flags) == r;
        ErrorCleanup(mode, files, names, outcomes, i + 1, acc', s.disk, s.flags);
        assert LastReached(i + 1, acc', r) == LastReached(i, acc, r);
      } else {
        assert r == Trace(Aborted(ProviderError), acc + [out], s.disk, s.flags);
        assert LastReached(i, acc, r) == i;
      }
    }
  }

  /**
   * After such a stop, the output recorded last is gone from disk when
   * deleteSilently worked for it.
   */
  lemma {:induction false} ErrorRemovesOutput(mode: Mode, files: seq<Path>, names: seq<Option<Path>>, outcomes: seq<FileOutcome>, i: nat,
                                              acc: seq<Path>, disk: set<Path>, flags: Flags)
    requires Aligned(files, names, outcomes) && i <= |files|
    requires !flags.error
    ensures var r := Run(mode, files, names, outcomes, i, acc, disk, flags);
      r.end == Aborted(ProviderError) ==>
        && i <= LastReached(i, acc, r) < |files|
        && (outcomes[LastReached(i, acc, r)].outputDeleted ==> r.newFiles[|r.newFiles| - 1] !in r.disk)
    decreases |files| - i
  {
    var r := Run(mode, files, names, outcomes, i, acc, disk, flags);
    if r.end == Aborted(ProviderError) {
      assert i < |files| && names[i].Some?;
      var out := names[i].value;
      var s := Attempt(mode, files[i], out, outcomes[i], disk, flags);
      RunStep(mode, files, names, outcomes, i, acc, disk, flags);
      if s.Next? {
        var acc' := acc + [out];
        assert Run(mode, files, names, outcomes, i + 1, acc', s.disk, s.flags) == r;
        ErrorRemovesOutput(mode, files, names, outcomes, i + 1, acc', s.disk, s.flags);
        assert LastReached(i + 1, acc', r) == LastReached(i, acc, r);
      } else {
        assert r == Trace(Aborted(ProviderError), acc + [out], s.disk, s.flags);
        assert LastReached(i, acc, r) == i && r.newFiles[|r.newFiles| - 1] == out;
      }
    }
  }

  /** The loop creates nothing but the outputs it records: any other path that did not exist still does not. */
  lemma {:induction false} RunCreatesOnlyOutputs(mode: Mode, files: seq<Path>, names: seq<Option<Path>>, outcomes: seq<FileOutcome>, i: nat,
                                                 acc: seq<Path>, disk: set<Path>, flags: Flags, p: Path)
    requires Aligned(files, names, outcomes) && i <= |files|
    requires p !in disk && p !in Run(mode, files, names, outcomes, i, acc, disk, flags).newFiles[|acc|..]
    ensures p !in Run(mode, files, names, outcomes, i, acc, disk, flags).disk
    decreases |files| - i
  {
    var r := Run(mode, files, names, outcomes, i, acc, disk, flags);
    if i < |files| && names[i].Some? {
      var out := names[i].value;
      var s := Attempt(mode, files[i], out, outcomes[i], disk, flags);
      RunRecordsFile(mode, files, names, outcomes, i, acc, disk, flags);
      assert r.newFiles[|acc|..][0] == out;
      if s.Next? {
        assert Run(mode, files, names, outcomes, i + 1, acc + [out], s.disk, s.flags) == r;
        assert r.newFiles[|acc| + 1..] == r.newFiles[|acc|..][1..];
        RunCreatesOnlyOutputs(mode, files, names, outcomes, i + 1, acc + [out], s.disk, s.flags, p);
      }
    }
  }

  /** No two files from `i` on have the same output path. */
  predicate DistinctNames(files: seq<Path>, names: seq<Option<Path>>, i: nat)
    requires |names| == |files|
  {
    forall j, k :: i <= j < k < |files| && names[j].Some? ==> names[j] != names[k]
  }

  /**
   * A batch that returns false rolls nothing back: every output recorded
   * before the failing file's is still on disk and, when encrypting, every
   * input before the failing file is gone. This needs that no output is an
   * input and that no two outputs coincide.
   */
  lemma {:induction false} AbortKeepsEarlierFiles(mode: Mode, files: seq<Path>, names: seq<Option<Path>>, outcomes: seq<FileOutcome>, i: nat,
                                                  acc: seq<Path>, disk: set<Path>, flags: Flags)
    requires Aligned(files, names, outcomes) && i <= |files|
    requires NoCollision(files, names, i) && DistinctNames(files, names, i)
    ensures var r := Run(mode, files, names, outcomes, i, acc, disk, flags);
      r.end.Aborted? ==>
        && (forall k :: |acc| <= k < |r.newFiles| - 1 ==> r.newFiles[k] in r.disk)
        && (mode == Encrypt ==> forall k :: i <= k < LastReached(i, acc, r) ==> files[k] !in r.disk)
    decreases |files| - i
  {
    var r := Run(mode, files, names, outcomes, i, acc, disk, flags);
    if r.end.Aborted? {
      assert i < |files| && names[i].Some?;
      var out := names[i].value;
      var s := Attempt(mode, files[i], out, outcomes[i], disk, flags);
      RunStep(mode, files, names, outcomes, i, acc, disk, flags);
      if s.Next? {
        var acc' := acc + [out];
        assert Run(mode, files, names, outcomes, i + 1, acc', s.disk, s.flags) == r;
        AbortKeepsEarlierFiles(mode, files, names, outcomes, i + 1, acc', s.disk, s.flags);
        RunEnds(mode, files, names, outcomes, i + 1, acc', s.disk, s.flags);
        assert LastReached(i + 1, acc', r) == LastReached(i, acc, r);
        RunRecordsFile(mode, files, names, outcomes, i, acc, disk, flags);
        AbortKeepsStep(mode, files, names, outcomes, i, acc, disk, flags);
      }
    }
  }

  /**
   * The step of AbortKeepsEarlierFiles for file `i` when it went through:
   * the rest of the batch neither removes its output nor re-creates its input.
   */
  lemma AbortKeepsStep(mode: Mode, files: seq<Path>, names: seq<Option<Path>>, outcomes: seq<FileOutcome>, i: nat,
                       acc: seq<Path>, disk: set<Path>, flags: Flags)
    requires Aligned(files, names, outcomes) && i < |files| && names[i].Some?
    requires NoCollision(files, names, i) && DistinctNames(files, names, i)
    requires Attempt(mode, files[i], names[i].value, outcomes[i], disk, flags).Next?
    ensures var out := names[i].value;
      var s := Attempt(mode, files[i], out, outcomes[i], disk, flags);
      var r := Run(mode, files, names, outcomes, i + 1, acc + [out], s.disk, s.flags);
      && out in r.disk
      && (mode == Encrypt ==> files[i] !in r.disk)
  {
    var out := names[i].value;
    var s := Attempt(mode, files[i], out, outcomes[i], disk, flags);
    var acc' := acc + [out];
    var r := Run(mode, files, names, outcomes, i + 1, acc', s.disk, s.flags);
    LaterOutputsAvoid(mode, files, names, outcomes, i, acc', s.disk, s.flags, out);
    RunFrame(mode, files, names, outcomes, i + 1, acc', s.disk, s.flags, out);
    if mode == Encrypt {
      LaterOutputsAvoid(mode, files, names, outcomes, i, acc', s.disk, s.flags, files[i]);
      RunCreatesOnlyOutputs(mode, files, names, outcomes, i + 1, acc', s.disk, s.flags, files[i]);
    }
  }

  /**
   * The batch stops at the first file the environment does not let through:
   * the outputs of that file and of every file before it are recorded, the
   * last being the failing file's; an error reply there removes that output
   * (when deleteSilently works), a failed close leaves it in place, and a
   * failed plaintext delete leaves both the input and the output.
   */
  lemma {:induction false} StopsAtFirstFailure(mode: Mode, files: seq<Path>, names: seq<Option<Path>>, outcomes: seq<FileOutcome>, i: nat,
                                               acc: seq<Path>, disk: set<Path>, flags: Flags, n: nat)
    requires Aligned(files, names, outcomes) && i <= n < |files|
    requires !flags.error
    requires forall k :: i <= k <= n ==> files[k] in disk && names[k].Some?
    requires forall k :: i <= k < n ==> Clean(mode, outcomes[k])
    requires !Clean(mode, outcomes[n])
    requires mode == Encrypt ==> forall j, k :: i <= j < k < |files| ==> files[j] != files[k]
    ensures var r := Run(mode, files, names, outcomes, i, acc, disk, flags);
      && r.end.Aborted?
      && |r.newFiles| == |acc| + (n - i) + 1
      && r.newFiles[|r.newFiles| - 1] == names[n].value
      && (outcomes[n].fault == NoFault && IsErrorReply(outcomes[n].response) ==>
            r.end == Aborted(ProviderError) && (outcomes[n].outputDeleted ==> names[n].value !in r.disk))
      && (outcomes[n].fault == OutputCloseFails ==> r.end == Aborted(OutputNotClosed) && names[n].value in r.disk)
      && (mode == Encrypt && outcomes[n].fault == NoFault && !IsErrorReply(outcomes[n].response) && !outcomes[n].inputDeleted ==>
            r.end == Aborted(InputNotDeleted) && names[n].value in r.disk && files[n] in r.disk)
    decreases n - i
  {
    var out := names[i].value;
    var s := Attempt(mode, files[i], out, outcomes[i], disk, flags);
    RunStep(mode, files, names, outcomes, i, acc, disk, flags);
    if i < n {
      assert s.Next?;
      AttemptFrame(mode, files[i], out, outcomes[i], disk, flags);
      forall k | i + 1 <= k <= n
        ensures files[k] in s.disk
      {
        assert files[k] !in {files[i], out} ==> files[k] in disk - {files[i], out};
      }
      StopsAtFirstFailure(mode, files, names, outcomes, i + 1, acc + [out], s.disk, s.flags, n);
    } else {
      assert s.Stop?;
    }
  }

  /** An empty batch returns true and changes nothing but errorFlag, which it clears. */
  lemma EmptyBatch(mode: Mode, disk: set<Path>, success: bool)
    ensures BatchRun(mode, [], [], disk, success) == Trace(Completed, [], disk, Flags(success, false))
  {
  }

  /**
   * Two files are encrypted; the provider accepts the first and rejects the
   * second. The batch fails with BOTH outputs in newFiles (each is recorded
   * before its attempt); the first input is deleted and its output stays, the
   * second input stays and its output is deleted.
   */
  lemma SecondOfTwoFails(a: Path, b: Path, disk: set<Path>, success: bool)
    requires a != b && a in disk && b in disk
    requires EncryptPath(a) != b && EncryptPath(b) != a && EncryptPath(b) !in disk
    ensures var ok := FileOutcome(Response(Some(ResultCodeSuccess), None), NoFault, true, true);
      var bad := FileOutcome(Response(Some(ResultCodeError), None), NoFault, true, true);
      BatchRun(Encrypt, [a, b], [ok, bad], disk, success)
        == Trace(Aborted(ProviderError), [EncryptPath(a), EncryptPath(b)],
                 (disk + {EncryptPath(a)}) - {a}, Flags(false, true))
  {
    var ok := FileOutcome(Response(Some(ResultCodeSuccess), None), NoFault, true, true);
    var bad := FileOutcome(Response(Some(ResultCodeError), None), NoFault, true, true);
    var first := (disk + {EncryptPath(a)}) - {a};
    var names := [Some(EncryptPath(a)), Some(EncryptPath(b))];
    assert Names(Encrypt, [a, b]) == names;
    assert Attempt(Encrypt, a, EncryptPath(a), ok, disk, Flags(success, false)) == Next(first, Flags(true, false));
    assert EncryptPath(a) != EncryptPath(b);
    assert b in first;
    assert (first + {EncryptPath(b)}) - {EncryptPath(b)} == first;
    assert Attempt(Encrypt, b, EncryptPath(b), bad, first, Flags(true, false))
        == Stop(ProviderError, first, Flags(false, true));
    assert Run(Encrypt, [a, b], names, [ok, bad], 0, [], disk, Flags(success, false))
        == Run(Encrypt, [a, b], names, [ok, bad], 1, [EncryptPath(a)], first, Flags(true, false));
  }

  /**
   * A reply that asks for user interaction and carries an intent raises
   * neither flag; nothing raises one during the wait, so after the wait
   * the file counts as done, as if the provider had succeeded.
   */
  lemma InteractionCountsAsSuccess(file: Path, disk: set<Path>, id: nat, success: bool)
    requires file in disk && Contains(file, GpgExt)
    ensures var pending := FileOutcome(Response(Some(ResultCodeUserInteractionRequired), Some(PendingIntent(id))), NoFault, false, false);
      BatchRun(Decrypt, [file], [pending], disk, success)
        == Trace(Completed, [DecryptPath(file)], disk + {DecryptPath(file)}, Flags(false, false))
  {
    var pending := FileOutcome(Response(Some(ResultCodeUserInteractionRequired), Some(PendingIntent(id))), NoFault, false, false);
    var out := DecryptPath(file);
    assert Names(Decrypt, [file]) == [Some(out)];
    assert Attempt(Decrypt, file, out, pending, disk, Flags(success, false)) == Next(disk + {out}, Flags(false, false));
    assert Run(Decrypt, [file], [Some(out)], [pending], 0, [], disk, Flags(success, false))
        == Run(Decrypt, [file], [Some(out)], [pending], 1, [out], disk + {out}, Flags(false, false));
  }
}
