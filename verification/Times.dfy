/**
 The times of a file: which operation sets which of them, for every file and every operation, and
 what two stats of the same file therefore tell.
 */
module Times {
  import opened Common
  import opened Namespace
  import opened Invariant
  import opened Permissions
  import opened Runs
  import opened Reference
  import opened Views
  import opened Refinement

  /** The call goes to the file x: this sets its access time, and nothing else about it changes
      without that. */
  ghost predicate Uses(fs: Fs, op: Op, x: nat) {
    match op
    case OpChmod(uid, gid, _, name) => name in fs.dir && Resolve(fs, name) == x && Granted(fs, uid, gid, name, true)
    case OpStat(uid, gid, name) => Resolve(fs, name) == x && Granted(fs, uid, gid, name, false)
    case OpLink(uid, gid, name, link) =>
      Resolve(fs, name) == x && Granted(fs, uid, gid, name, false) && link !in fs.dir
    case OpSymlink(uid, gid, _, name, link) =>
      name in fs.dir && Resolve(fs, name) == x && Granted(fs, uid, gid, name, false) && link !in fs.dir
    case OpOpen(uid, gid, name, flags) =>
      && Resolve(fs, name) == x && (flags == READ_ONLY || flags == WRITE_ONLY)
      && Granted(fs, uid, gid, name, flags == WRITE_ONLY) && !HasWriter(fs, x)
    case OpWrite(fd, _) => fd in fs.handles && fs.handles[fd].node == x && fs.handles[fd].mode == WRITE_ONLY
    case OpRead(fd, _) => fd in fs.handles && fs.handles[fd].node == x
    case OpUnlink(name) => name in fs.dir && fs.dir[name] == x && HasName(fs.dir - {name}, x)
    case _ => false
  }

  /** The unlink of the last name of x. */
  ghost predicate Drops(fs: Fs, op: Op, x: nat) {
    op.OpUnlink? && op.name in fs.dir && fs.dir[op.name] == x && !HasName(fs.dir - {op.name}, x)
  }

  /** The times of the file x after a call. */
  ghost predicate TimesAfter(fs: Fs, op: Op, now: int, x: nat, before: Record, after: Record) {
    && after.atime == (if Uses(fs, op, x) then now else before.atime)
    && after.mtime == (if Uses(fs, op, x) && op.OpWrite? then now else before.mtime)
    && after.ctime == (if Uses(fs, op, x) && (op.OpChmod? || op.OpLink? || op.OpUnlink?) then now else before.ctime)
    && (!Uses(fs, op, x) ==> after == before)
  }

  lemma ServeTimes(fs: Fs, op: Op, now: int, x: nat)
    requires x in fs.files
    ensures var fs' := Serve(fs, op, now).0;
            && (x in fs'.files <==> !Drops(fs, op, x))
            && (x in fs'.files ==> TimesAfter(fs, op, now, x, fs.files[x], fs'.files[x]))
  {
  }

  lemma NewTimes(fs: Fs, op: Op, now: int, x: nat)
    requires x !in fs.files && x in Serve(fs, op, now).0.files
    ensures var r := Serve(fs, op, now).0.files[x]; r.atime == r.mtime == r.ctime == now
  {
  }

  /** For every operation in every good state: a new file has all three times set. Of every other
      file, the access time is set by every operation that uses the file, the modification time by
      writes, the change time by chmod, hard links, and unlinks of a name that is not the last; no
      other time changes, and without use nothing of a file does. */
  lemma StepTimes(s: State, op: Op, now: int, x: nat)
    requires Inv(s)
    ensures Typed(s)
    ensures var fs, fs' := View(s), View(Apply(s, op, now).0);
            && (x in fs.files && x in fs'.files ==> TimesAfter(fs, op, now, x, fs.files[x], fs'.files[x]))
            && (x in fs.files && x !in fs'.files ==> Drops(fs, op, x))
            && (x !in fs.files && x in fs'.files ==>
                 fs'.files[x].atime == fs'.files[x].mtime == fs'.files[x].ctime == now)
  {
    StepRefines(s, op, now);
    if x in View(s).files {
      ServeTimes(View(s), op, now, x);
    } else if x in View(Apply(s, op, now).0).files {
      NewTimes(View(s), op, now, x);
    }
  }

  // ------------------------------------------------------------------ over runs

  /** No operation from j on and before k uses or drops the file. */
  ghost predicate Unused(states: seq<State>, events: seq<Event>, j: nat, k: nat, x: nat)
    requires j <= k <= |events| < |states|
  {
    forall i :: j <= i < k ==> !Uses(View(states[i]), events[i].op, x) && !Drops(View(states[i]), events[i].op, x)
  }

  lemma RunStepTimes(states: seq<State>, events: seq<Event>, i: nat, x: nat)
    requires IsRun(states, events) && i < |events| && Inv(states[0]) && AllSafe(states, events)
    requires x in View(states[i]).files && !Drops(View(states[i]), events[i].op, x)
    ensures x in View(states[i + 1]).files
    ensures TimesAfter(View(states[i]), events[i].op, events[i].now, x, View(states[i]).files[x],
                       View(states[i + 1]).files[x])
  {
    RunInv(states, events, i);
    assert Step(states[i], events[i], states[i + 1]);
    StepTimes(states[i], events[i].op, events[i].now, x);
  }

  /** A file that no operation uses keeps its whole record, its times included. */
  lemma {:induction false} UnusedKeeps(states: seq<State>, events: seq<Event>, j: nat, k: nat, x: nat)
    requires IsRun(states, events) && j <= k <= |events| && Inv(states[0]) && AllSafe(states, events)
    requires Unused(states, events, j, k, x) && x in View(states[j]).files
    ensures x in View(states[k]).files && View(states[k]).files[x] == View(states[j]).files[x]
  {
    if j < k {
      UnusedKeeps(states, events, j, k - 1, x);
      RunStepTimes(states, events, k - 1, x);
    }
  }

  /** Operation i is a stat of the file x, and succeeds. */
  ghost predicate Stats(states: seq<State>, events: seq<Event>, i: nat, x: nat)
    requires i < |events| < |states|
  {
    events[i].op.OpStat? && Uses(View(states[i]), events[i].op, x)
  }

  lemma StatShows(states: seq<State>, events: seq<Event>, i: nat, x: nat)
    requires IsRun(states, events) && i < |events| && Inv(states[0]) && AllSafe(states, events)
    requires Stats(states, events, i, x)
    ensures Typed(states[i]) && x in View(states[i]).files && x in View(states[i + 1]).files
    ensures var r := View(states[i]).files[x];
            && Apply(states[i], events[i].op, events[i].now).1
               == Reply(Success, 0, [], Some(StatRecord(r.size, r.atime, r.mtime, r.ctime)))
            && View(states[i + 1]).files[x] == r.(atime := events[i].now)
  {
    RunInv(states, events, i);
    assert Step(states[i], events[i], states[i + 1]);
    StepRefines(states[i], events[i].op, events[i].now);
  }

  /** Two stats of a file that nothing else uses in between: the second shows the same size,
      modification and change time as the first, and the time of the first as access time. */
  lemma StatTwice(states: seq<State>, events: seq<Event>, j: nat, k: nat, x: nat)
    requires IsRun(states, events) && j < k < |events| && Inv(states[0]) && AllSafe(states, events)
    requires Stats(states, events, j, x) && Stats(states, events, k, x) && Unused(states, events, j + 1, k, x)
    ensures Typed(states[j]) && Typed(states[k])
    ensures var first, second := Apply(states[j], events[j].op, events[j].now).1,
                                 Apply(states[k], events[k].op, events[k].now).1;
            && first.status == second.status == Success && first.stat.Some? && second.stat.Some?
            && second.stat.value == first.stat.value.(atime := events[j].now)
  {
    StatShows(states, events, j, x);
    UnusedKeeps(states, events, j + 1, k, x);
    StatShows(states, events, k, x);
  }
}
