/** The cloud state manager (internal/cloud/state.go): serials, lineage, uploads and the workspace
    lock, against a server that may fail at every call.

    The answers of the server are arguments of the methods; every call that reaches the server is
    recorded in `log`, newest last. */
module CloudState {
  import opened Addresses

  /** The content of a state snapshot. Two contents marshal equal exactly when they are equal. */
  type Content = string

  const MAX_SERIAL: nat := 0xffff_ffff_ffff_ffff
  const MAX_SENT: nat := 0x7fff_ffff_ffff_ffff

  /** uint64 */
  type Serial = n: nat | n <= MAX_SERIAL

  /** uint64 increment */
  function Next(serial: Serial): Serial {
    if serial == MAX_SERIAL then 0 else serial + 1
  }

  type Int64 = n: int | -0x8000_0000_0000_0000 <= n <= MAX_SENT

  /** int64(serial), which is what an upload carries. */
  function Sent(serial: Serial): Int64 {
    if serial <= MAX_SENT then serial else serial - 0x1_0000_0000_0000_0000
  }

  /** What the server holds: nothing, or a snapshot. */
  datatype Fetched = NoSnapshot | Snapshot(content: Content, lineage: string, serial: Serial) | FetchFailed

  /** How far a state file gets: encoding it fails, the server rejects it, or it is stored. */
  datatype Delivery = NotEncoded | Rejected | Accepted

  /** A nil state is uploaded as an empty one, here as None. */
  datatype Effect =
    | Refreshed
    | Uploaded(serial: Int64, lineage: string, content: Option<Content>, force: bool, ok: bool)
    | LockRequested
    | Unlocked
    | ForceUnlocked

  /** The fields the protocol turns on; a nil state is None. */
  datatype Fields = Fields(
    lineage: string, readLineage: string,
    serial: Serial, readSerial: Serial,
    state: Option<Content>, readState: Option<Content>,
    uploadErr: bool,
    forcePush: bool,
    disableLocks: bool,
    lockInfo: Option<string>,
    log: seq<Effect>)

  // ---------------------------------------------------------------- transitions

  function Write(s: Fields, content: Option<Content>): Fields {
    s.(state := content, forcePush := false)
  }

  /** WriteStateForMigration; `valid` is the answer of CheckValidImport. */
  function Migrate(
      s: Fields, content: Option<Content>, lineage: string, serial: Serial, force: bool, valid: bool): Fields
  {
    if force || valid then s.(state := content, lineage := lineage, serial := serial, forcePush := force) else s
  }

  /** refreshState; a failure changes nothing. The read lineage and serial keep their values when
      there is no remote state. */
  function Refresh(s: Fields, f: Fetched): Fields {
    match f
    case FetchFailed => s
    case NoSnapshot => s.(readState := None, lineage := "", serial := 0, log := s.log + [Refreshed])
    case Snapshot(content, lineage, serial) =>
      s.(lineage := lineage, serial := serial, state := Some(content),
         readLineage := lineage, readSerial := serial, readState := Some(content),
         log := s.log + [Refreshed])
  }

  /** Nothing has changed since the last read or upload. */
  predicate Unchanged(s: Fields) {
    && s.readState.Some? && s.state.Some? && s.state == s.readState
    && s.readLineage != "" && s.lineage == s.readLineage
    && s.readSerial != 0 && s.serial == s.readSerial
  }

  /** The upload at the end of PersistState. */
  function Upload(s: Fields, ok: bool): Fields {
    var t := s.(log := s.log + [Uploaded(Sent(s.serial), s.lineage, s.state, s.forcePush, ok)]);
    if ok then t.(readState := s.state, readLineage := s.lineage, readSerial := s.serial) else t.(uploadErr := true)
  }

  /** Whether PersistState gets as far as a state file: something has changed, the server could be
      read if it had to be, and a lineage could be generated if there was none. */
  predicate Attempts(s: Fields, fetched: Fetched, uuid: Option<string>) {
    !Unchanged(s) &&
    (s.readState.None? ==> !fetched.FetchFailed? && (Refresh(s, fetched).lineage == "" ==> uuid.Some?))
  }

  /** The fields the state file is made of. `fetched` and `uuid` matter only when there is no read
      state yet. */
  function Prepare(s: Fields, fetched: Fetched, uuid: Option<string>): Fields
    requires Attempts(s, fetched, uuid)
  {
    if s.readState.Some? then s.(serial := Next(s.serial))
    else
      var r := Refresh(s, fetched);
      if r.lineage == "" then r.(lineage := uuid.value, serial := Next(r.serial)) else r
  }

  /** Encoding can fail after the serial has moved on; only a rejected upload raises the flag. */
  function Persist(s: Fields, fetched: Fetched, uuid: Option<string>, d: Delivery): Fields {
    if Unchanged(s) then s
    else if !Attempts(s, fetched, uuid) then Refresh(s, fetched)
    else if d.NotEncoded? then Prepare(s, fetched, uuid)
    else Upload(Prepare(s, fetched, uuid), d.Accepted?)
  }

  function Lock(s: Fields, id: string, ok: bool): Fields {
    if s.disableLocks then s
    else if ok then s.(lockInfo := Some(id), log := s.log + [LockRequested])
    else s.(log := s.log + [LockRequested])
  }

  function Unlock(s: Fields, id: string, workspace: string): Fields {
    if s.disableLocks || s.uploadErr then s
    else
      match s.lockInfo
      case Some(held) => if held == id then s.(log := s.log + [Unlocked]) else s
      case None => if id == workspace then s.(log := s.log + [ForceUnlocked]) else s
  }

  class State {
    var lineage: string
    var readLineage: string
    var serial: Serial
    var readSerial: Serial
    var state: Option<Content>
    var readState: Option<Content>
    var stateUploadErr: bool
    var forcePush: bool
    var disableLocks: bool
    var lockInfo: Option<string>
    ghost var log: seq<Effect>

    ghost function Value(): Fields
      reads this
    {
      Fields(
        lineage, readLineage, serial, readSerial, state, readState,
        stateUploadErr, forcePush, disableLocks, lockInfo, log)
    }

    constructor (locksOff: bool)
      ensures Value() == Fields("", "", 0, 0, None, None, false, false, locksOff, None, [])
    {
      lineage, readLineage, serial, readSerial := "", "", 0, 0;
      state, readState := None, None;
      stateUploadErr, forcePush, disableLocks, lockInfo := false, false, locksOff, None;
      log := [];
    }

    method WriteState(content: Option<Content>)
      modifies this
      ensures Value() == Write(old(Value()), content)
    {
      state := content;
      forcePush := false;
    }

    method WriteStateForMigration(
        content: Option<Content>, newLineage: string, newSerial: Serial, force: bool, valid: bool)
      returns (ok: bool)
      modifies this
      ensures Value() == Migrate(old(Value()), content, newLineage, newSerial, force, valid)
      ensures ok == (force || valid)
    {
      if !force {
        if !valid {
          return false;
        }
      }
      state := content;
      lineage := newLineage;
      serial := newSerial;
      forcePush := force;
      return true;
    }

    method RefreshState(fetched: Fetched) returns (ok: bool)
      modifies this
      ensures ok == !fetched.FetchFailed?
      ensures Value() == Refresh(old(Value()), fetched)
    {
      if fetched.FetchFailed? {
        return false;
      }
      log := log + [Refreshed];
      if fetched.NoSnapshot? {
        readState := None;
        lineage := "";
        serial := 0;
        return true;
      }
      lineage := fetched.lineage;
      serial := fetched.serial;
      state := Some(fetched.content);
      readLineage := fetched.lineage;
      readSerial := fetched.serial;
      readState := state;
      return true;
    }

    /** The comparison that lets PersistState return early. */
    method UpToDate() returns (same: bool)
      requires readState.Some?
      ensures same == Unchanged(Value())
    {
      var lineageUnchanged := readLineage != "" && lineage == readLineage;
      var serialUnchanged := readSerial != 0 && serial == readSerial;
      var stateUnchanged := state.Some? && state == readState;
      return stateUnchanged && lineageUnchanged && serialUnchanged;
    }

    method PersistState(fetched: Fetched, uuid: Option<string>, delivery: Delivery) returns (ok: bool)
      modifies this
      ensures Value() == Persist(old(Value()), fetched, uuid, delivery)
      ensures ok <==> Unchanged(old(Value())) || (Attempts(old(Value()), fetched, uuid) && delivery.Accepted?)
    {
      if readState.Some? {
        var upToDate := UpToDate();
        if upToDate {
          return true;
        }
        serial := Next(serial);
      } else {
        var ready := ReadFirst(fetched, uuid);
        if !ready {
          return false;
        }
      }
      ok := SendState(delivery);
    }

    /** The part of PersistState that looks for a snapshot before a first upload. */
    method ReadFirst(fetched: Fetched, uuid: Option<string>) returns (ready: bool)
      requires readState.None?
      modifies this
      ensures ready == Attempts(old(Value()), fetched, uuid)
      ensures Value() == if ready then Prepare(old(Value()), fetched, uuid) else Refresh(old(Value()), fetched)
    {
      var refreshed := RefreshState(fetched);
      if !refreshed {
        return false;
      }
      if lineage == "" {
        if uuid.None? {
          return false;
        }
        lineage := uuid.value;
        serial := Next(serial);
      }
      return true;
    }

    /** The part of PersistState from the state file on. */
    method SendState(delivery: Delivery) returns (ok: bool)
      modifies this
      ensures Value() == if delivery.NotEncoded? then old(Value()) else Upload(old(Value()), delivery.Accepted?)
      ensures ok == delivery.Accepted?
    {
      if delivery.NotEncoded? {
        return false;
      }
      log := log + [Uploaded(Sent(serial), lineage, state, forcePush, delivery.Accepted?)];
      if !delivery.Accepted? {
        stateUploadErr := true;
        return false;
      }
      readState := state;
      readLineage := lineage;
      readSerial := serial;
      return true;
    }

    method LockWorkspace(id: string, serverOk: bool) returns (ok: bool)
      modifies this
      ensures Value() == Lock(old(Value()), id, serverOk)
      ensures ok == (old(disableLocks) || serverOk)
    {
      if disableLocks {
        return true;
      }
      log := log + [LockRequested];
      if !serverOk {
        return false;
      }
      lockInfo := Some(id);
      return true;
    }

    /** `workspace` is the organization and workspace name that a forced unlock must quote. */
    method UnlockWorkspace(id: string, workspace: string, serverOk: bool) returns (ok: bool)
      modifies this
      ensures Value() == Unlock(old(Value()), id, workspace)
      ensures ok <==> old(disableLocks || stateUploadErr) ||
                      (serverOk && if old(lockInfo).Some? then old(lockInfo).value == id else id == workspace)
    {
      if disableLocks {
        return true;
      }
      if stateUploadErr {
        return true;
      }
      if lockInfo.Some? {
        if lockInfo.value != id {
          return false;
        }
        log := log + [Unlocked];
        return serverOk;
      }
      if workspace != id {
        return false;
      }
      log := log + [ForceUnlocked];
      return serverOk;
    }
  }

  // ---------------------------------------------------------------- runs

  datatype Event =
    | DoWrite(content: Option<Content>)
    | DoRefresh(fetched: Fetched)
    | DoMigrate(content: Option<Content>, lineage: string, serial: Serial, force: bool, valid: bool)
    | DoPersist(fetched: Fetched, uuid: Option<string>, delivery: Delivery)
    | DoLock(id: string, lockOk: bool)
    | DoUnlock(id: string, workspace: string)

  function Step(s: Fields, e: Event): Fields {
    match e
    case DoWrite(c) => Write(s, c)
    case DoRefresh(f) => Refresh(s, f)
    case DoMigrate(c, lineage, serial, force, valid) => Migrate(s, c, lineage, serial, force, valid)
    case DoPersist(f, uuid, d) => Persist(s, f, uuid, d)
    case DoLock(id, ok) => Lock(s, id, ok)
    case DoUnlock(id, workspace) => Unlock(s, id, workspace)
  }

  function Run(s: Fields, events: seq<Event>): Fields {
    if events == [] then s else Step(Run(s, events[..|events| - 1]), events[|events| - 1])
  }

  predicate NoMigration(events: seq<Event>) {
    forall i :: 0 <= i < |events| ==> !events[i].DoMigrate?
  }

  /** Every snapshot the server hands out has a serial of at most `bound`. */
  predicate SerialsAtMost(events: seq<Event>, bound: nat) {
    forall i :: 0 <= i < |events| ==> FetchAtMost(events[i], bound)
  }

  predicate FetchAtMost(e: Event, bound: nat) {
    match e
    case DoRefresh(f) => f.Snapshot? ==> f.serial <= bound
    case DoPersist(f, _, _) => f.Snapshot? ==> f.serial <= bound
    case _ => true
  }

  // ---------------------------------------------------------------- serials increase

  /** The serials sent since the last refresh. */
  function Epoch(log: seq<Effect>): seq<Int64> {
    if log == [] || log[|log| - 1].Refreshed? then []
    else
      var before, last := Epoch(log[..|log| - 1]), log[|log| - 1];
      if last.Uploaded? then before + [last.serial] else before
  }

  predicate Increasing(s: seq<Int64>) {
    forall i, j :: 0 <= i < j < |s| ==> s[i] < s[j]
  }

  /** At every moment of the log the current epoch has strictly increasing serials. */
  predicate EpochsIncrease(log: seq<Effect>) {
    forall n :: 0 <= n <= |log| ==> Increasing(Epoch(log[..n]))
  }

  /** Nothing sent in the current epoch exceeds the serial. */
  predicate Ahead(s: Fields) {
    forall x :: x in Epoch(s.log) ==> x <= Sent(s.serial)
  }

  /** The read serial is not ahead of the serial. */
  predicate ReadBehind(s: Fields) {
    s.readState.Some? ==> s.readSerial <= s.serial
  }

  lemma EpochSnoc(log: seq<Effect>, e: Effect)
    ensures Epoch(log + [e]) ==
            if e.Refreshed? then [] else if e.Uploaded? then Epoch(log) + [e.serial] else Epoch(log)
  {
    assert (log + [e])[..|log|] == log;
  }

  lemma EpochsSnoc(log: seq<Effect>, e: Effect)
    requires EpochsIncrease(log) && Increasing(Epoch(log + [e]))
    ensures EpochsIncrease(log + [e])
  {
    var all := log + [e];
    forall n | 0 <= n <= |all| ensures Increasing(Epoch(all[..n])) {
      if n <= |log| {
        assert all[..n] == log[..n];
      } else {
        assert all[..n] == all;
      }
    }
  }

  lemma EpochsOfPrefix(log: seq<Effect>, longer: seq<Effect>)
    requires log <= longer && EpochsIncrease(longer)
    ensures EpochsIncrease(log) && Increasing(Epoch(log))
  {
    forall n | 0 <= n <= |log| ensures Increasing(Epoch(log[..n])) {
      assert log[..n] == longer[..n];
    }
    assert log[..|log|] == log;
  }

  lemma RefreshKeeps(s: Fields, f: Fetched)
    requires EpochsIncrease(s.log) && Ahead(s)
    ensures EpochsIncrease(Refresh(s, f).log) && Ahead(Refresh(s, f))
    ensures !f.FetchFailed? ==> Epoch(Refresh(s, f).log) == []
  {
    EpochSnoc(s.log, Refreshed);
    if !f.FetchFailed? {
      EpochsSnoc(s.log, Refreshed);
    }
  }

  lemma OtherEffect(log: seq<Effect>, e: Effect)
    requires EpochsIncrease(log) && !e.Uploaded? && !e.Refreshed?
    ensures EpochsIncrease(log + [e]) && Epoch(log + [e]) == Epoch(log)
  {
    EpochSnoc(log, e);
    assert log[..|log|] == log;
    EpochsSnoc(log, e);
  }

  /** The upload that sends the prepared fields. */
  function UploadOf(p: Fields, d: Delivery): Effect {
    Uploaded(Sent(p.serial), p.lineage, p.state, p.forcePush, d.Accepted?)
  }

  predicate Uploads(s: Fields, f: Fetched, uuid: Option<string>, d: Delivery) {
    Attempts(s, f, uuid) && !d.NotEncoded?
  }

  lemma UploadKeeps(p: Fields, d: Delivery)
    requires EpochsIncrease(p.log) && (forall x :: x in Epoch(p.log) ==> x < Sent(p.serial))
    ensures EpochsIncrease(Upload(p, d.Accepted?).log) && Ahead(Upload(p, d.Accepted?))
  {
    EpochSnoc(p.log, UploadOf(p, d));
    var epoch := Epoch(p.log);
    assert forall i :: 0 <= i < |epoch| ==> epoch[i] in epoch;
    EpochsOfPrefix(p.log, p.log);
    EpochsSnoc(p.log, UploadOf(p, d));
  }

  /** A persist moves the serial past the largest signed number, with uploads in the current epoch. */
  predicate Passes(s: Fields, e: Event) {
    e.DoPersist? && s.readState.Some? && !Unchanged(s) && s.serial == MAX_SENT && Epoch(s.log) != []
  }

  /** Preparing an upload raises the sent serial over everything sent in the epoch. */
  lemma PrepareRaises(s: Fields, f: Fetched, uuid: Option<string>, d: Delivery)
    requires EpochsIncrease(s.log) && Ahead(s) && Attempts(s, f, uuid) && !Passes(s, DoPersist(f, uuid, d))
    ensures var p := Prepare(s, f, uuid);
            EpochsIncrease(p.log) && forall x :: x in Epoch(p.log) ==> x < Sent(p.serial)
  {
    if s.readState.None? {
      RefreshKeeps(s, f);
    }
  }

  lemma PersistKeeps(s: Fields, f: Fetched, uuid: Option<string>, d: Delivery)
    requires EpochsIncrease(s.log) && Ahead(s) && !Passes(s, DoPersist(f, uuid, d))
    ensures var t := Persist(s, f, uuid, d); EpochsIncrease(t.log) && Ahead(t)
  {
    if Attempts(s, f, uuid) {
      PrepareRaises(s, f, uuid, d);
      UploadKeeps(Prepare(s, f, uuid), d);
    } else if !Unchanged(s) {
      RefreshKeeps(s, f);
    }
  }

  /** Every event but a migration and a persist that passes the signed maximum keeps the order. */
  lemma StepKeeps(s: Fields, e: Event)
    requires EpochsIncrease(s.log) && Ahead(s) && !e.DoMigrate? && !Passes(s, e)
    ensures var t := Step(s, e); EpochsIncrease(t.log) && Ahead(t)
  {
    match e
    case DoWrite(_) =>
    case DoRefresh(f) => RefreshKeeps(s, f);
    case DoPersist(f, uuid, d) => PersistKeeps(s, f, uuid, d);
    case DoLock(id, ok) => OtherEffect(s.log, LockRequested);
    case DoUnlock(_, _) =>
      OtherEffect(s.log, Unlocked);
      OtherEffect(s.log, ForceUnlocked);
  }

  lemma PrepareSerialAtMost(s: Fields, f: Fetched, uuid: Option<string>, bound: nat)
    requires s.serial <= bound < MAX_SENT && (f.Snapshot? ==> f.serial <= bound) && ReadBehind(s)
    requires Attempts(s, f, uuid)
    ensures var p := Prepare(s, f, uuid); p.serial <= bound + 1 && ReadBehind(p)
  {
  }

  lemma StepSerialAtMost(s: Fields, e: Event, bound: nat)
    requires s.serial <= bound < MAX_SENT && FetchAtMost(e, bound) && !e.DoMigrate? && ReadBehind(s)
    ensures var t := Step(s, e); t.serial <= bound + 1 && ReadBehind(t)
  {
    if e.DoPersist? {
      PersistSerialAtMost(s, e.fetched, e.uuid, e.delivery, bound);
    }
  }

  lemma PersistSerialAtMost(s: Fields, f: Fetched, uuid: Option<string>, d: Delivery, bound: nat)
    requires s.serial <= bound < MAX_SENT && (f.Snapshot? ==> f.serial <= bound) && ReadBehind(s)
    ensures var t := Persist(s, f, uuid, d); t.serial <= bound + 1 && ReadBehind(t)
  {
    if Attempts(s, f, uuid) {
      PrepareSerialAtMost(s, f, uuid, bound);
    }
  }

  /** In every run without migration writes, uploaded serials strictly increase until the next
      refresh, failed uploads included, for as long as the counter cannot pass the largest signed
      64-bit number: no serial handed out plus the number of events exceeds it. */
  lemma {:induction false} SerialsIncrease(s: Fields, events: seq<Event>, bound: nat)
    requires EpochsIncrease(s.log) && Ahead(s) && ReadBehind(s) && s.serial <= bound
    requires NoMigration(events) && SerialsAtMost(events, bound) && bound + |events| <= MAX_SENT
    ensures var t := Run(s, events);
            EpochsIncrease(t.log) && Ahead(t) && ReadBehind(t) && t.serial <= bound + |events|
  {
    if events != [] {
      var last := |events| - 1;
      SerialsIncrease(s, events[..last], bound);
      assert FetchAtMost(events[last], bound);
      StepKeeps(Run(s, events[..last]), events[last]);
      StepSerialAtMost(Run(s, events[..last]), events[last], bound + last);
    }
  }

  lemma PrepareLogGrows(s: Fields, f: Fetched, uuid: Option<string>)
    requires Attempts(s, f, uuid)
    ensures s.log <= Prepare(s, f, uuid).log
  {
  }

  lemma StepLogGrows(s: Fields, e: Event)
    ensures s.log <= Step(s, e).log
  {
    if e.DoPersist? && Attempts(s, e.fetched, e.uuid) {
      PrepareLogGrows(s, e.fetched, e.uuid);
    }
  }

  /** An upload past the signed maximum has a lower serial than those before it. */
  lemma PassingBreaksOrder(s: Fields, e: Event)
    requires Passes(s, e) && !e.delivery.NotEncoded?
    ensures !EpochsIncrease(Step(s, e).log)
  {
    var log, epoch, p := Step(s, e).log, Epoch(s.log), Prepare(s, e.fetched, e.uuid);
    EpochSnoc(s.log, UploadOf(p, e.delivery));
    assert Epoch(log)[0] == epoch[0] >= Epoch(log)[|epoch|];
    assert log[..|log|] == log;
  }

  predicate EncodingWorks(events: seq<Event>) {
    forall i :: 0 <= i < |events| && events[i].DoPersist? ==> !events[i].delivery.NotEncoded?
  }

  lemma StepKeepsIff(s: Fields, e: Event)
    requires EpochsIncrease(s.log) ==> Ahead(s)
    requires !e.DoMigrate? && (e.DoPersist? ==> !e.delivery.NotEncoded?)
    ensures var t := Step(s, e);
            && (EpochsIncrease(t.log) <==> EpochsIncrease(s.log) && !Passes(s, e))
            && (EpochsIncrease(t.log) ==> Ahead(t))
  {
    StepLogGrows(s, e);
    if !EpochsIncrease(s.log) {
      if EpochsIncrease(Step(s, e).log) {
        EpochsOfPrefix(s.log, Step(s, e).log);
      }
    } else if Passes(s, e) {
      PassingBreaksOrder(s, e);
    } else {
      StepKeeps(s, e);
    }
  }

  /** The event at `i` passes the signed maximum. */
  predicate PassesAt(s: Fields, events: seq<Event>, i: nat) {
    i < |events| && Passes(Run(s, events[..i]), events[i])
  }

  predicate NonePasses(s: Fields, events: seq<Event>) {
    forall i: nat :: i < |events| ==> !PassesAt(s, events, i)
  }

  lemma PassesAtPrefix(s: Fields, events: seq<Event>, n: nat, i: nat)
    requires i < n <= |events|
    ensures PassesAt(s, events[..n], i) <==> PassesAt(s, events, i)
  {
    assert events[..n][..i] == events[..i] && events[..n][i] == events[i];
  }

  lemma NonePassesSnoc(s: Fields, events: seq<Event>)
    requires events != []
    ensures var last := |events| - 1;
            NonePasses(s, events) <==> NonePasses(s, events[..last]) && !PassesAt(s, events, last)
  {
    var last := |events| - 1;
    forall i: nat | i < last ensures PassesAt(s, events[..last], i) <==> PassesAt(s, events, i) {
      PassesAtPrefix(s, events, last, i);
    }
  }

  /** Exactly when serials increase, in every run without migration writes whose state files can be
      encoded: no persist passes the signed maximum between refreshes. */
  lemma {:induction false} SerialsIncreaseIff(s: Fields, events: seq<Event>)
    requires EpochsIncrease(s.log) && Ahead(s) && NoMigration(events) && EncodingWorks(events)
    ensures EpochsIncrease(Run(s, events).log) <==> NonePasses(s, events)
    ensures EpochsIncrease(Run(s, events).log) ==> Ahead(Run(s, events))
  {
    if events != [] {
      var last := |events| - 1;
      SerialsIncreaseIff(s, events[..last]);
      NonePassesSnoc(s, events);
      StepKeepsIff(Run(s, events[..last]), events[last]);
    }
  }

  // ---------------------------------------------------------------- what an upload carries

  const WORD: nat := 0x1_0000_0000_0000_0000

  /** The counter wraps around, and what is sent is the signed number with the same bits. */
  lemma SerialArithmetic(serial: Serial)
    ensures Next(serial) == (serial + 1) % WORD
    ensures (Sent(serial) - serial) % WORD == 0 && (Sent(serial) == serial <==> serial <= MAX_SENT)
  {
  }

  /** Without a read state a persist looks at the server first. If it holds nothing, the upload is the
      state written, with serial 1 under the lineage generated. A snapshot with a lineage is uploaded again
      with its own serial and lineage; one without gets the next serial under the lineage generated. */
  lemma FirstUploadIs(s: Fields, f: Fetched, uuid: Option<string>, d: Delivery)
    requires s.readState.None? && Uploads(s, f, uuid, d)
    ensures Persist(s, f, uuid, d).log == s.log + [
              Refreshed,
              if f.NoSnapshot? then Uploaded(1, uuid.value, s.state, s.forcePush, d.Accepted?)
              else if f.lineage == "" then
                Uploaded(Sent((f.serial + 1) % WORD), uuid.value, Some(f.content), s.forcePush, d.Accepted?)
              else Uploaded(Sent(f.serial), f.lineage, Some(f.content), s.forcePush, d.Accepted?)]
  {
  }

  lemma PersistRead(s: Fields, f: Fetched, uuid: Option<string>, d: Delivery)
    requires s.readState.Some? && !d.NotEncoded?
    ensures Persist(s, f, uuid, d).log == s.log +
            if Unchanged(s) then []
            else [Uploaded(Sent((s.serial + 1) % WORD), s.lineage, s.state, s.forcePush, d.Accepted?)]
  {
    assert s.log + [] == s.log;
  }

  /** Reading a snapshot, writing and persisting uploads what was written with the next serial under the
      lineage read, unforced; it uploads nothing exactly when the same content is written to a
      snapshot with lineage and serial. */
  lemma RefreshWritePersist(
      s: Fields, content: Content, lineage: string, serial: Serial, written: Option<Content>,
      f: Fetched, uuid: Option<string>, d: Delivery)
    requires !d.NotEncoded?
    ensures Run(s, [DoRefresh(Snapshot(content, lineage, serial)), DoWrite(written), DoPersist(f, uuid, d)]).log ==
            s.log + [Refreshed] +
            if written == Some(content) && lineage != "" && serial != 0 then []
            else [Uploaded(Sent((serial + 1) % WORD), lineage, written, false, d.Accepted?)]
  {
    var r := Write(Refresh(s, Snapshot(content, lineage, serial)), written);
    RunThree(s, DoRefresh(Snapshot(content, lineage, serial)), DoWrite(written), DoPersist(f, uuid, d));
    PersistRead(r, f, uuid, d);
  }

  /** Reading a snapshot, importing a state and persisting uploads the state imported, under its lineage
      and with the serial after its own, forced as the import was; a refused import uploads nothing
      over a snapshot with lineage and serial, and neither does the import of that snapshot itself. */
  lemma RefreshMigratePersist(
      s: Fields, c: Content, l: string, n: Serial, content: Option<Content>, lineage: string, serial: Serial,
      force: bool, valid: bool, f: Fetched, uuid: Option<string>, d: Delivery)
    requires !d.NotEncoded? && l != "" && n != 0
    ensures Run(s, [DoRefresh(Snapshot(c, l, n)), DoMigrate(content, lineage, serial, force, valid),
                    DoPersist(f, uuid, d)]).log ==
            s.log + [Refreshed] +
            if !(force || valid) || (content == Some(c) && lineage == l && serial == n) then []
            else [Uploaded(Sent((serial + 1) % WORD), lineage, content, force, d.Accepted?)]
  {
    RunThree(s, DoRefresh(Snapshot(c, l, n)), DoMigrate(content, lineage, serial, force, valid),
             DoPersist(f, uuid, d));
    PersistRead(Migrate(Refresh(s, Snapshot(c, l, n)), content, lineage, serial, force, valid), f, uuid, d);
  }

  lemma RunThree(s: Fields, a: Event, b: Event, c: Event)
    ensures Run(s, [a, b, c]) == Step(Step(Step(s, a), b), c)
  {
    RunSnoc(s, [], a);
    RunSnoc(s, [a], b);
    RunSnoc(s, [a, b], c);
    assert [] + [a] == [a] && [a] + [b] == [a, b] && [a, b] + [c] == [a, b, c];
  }

  /** A persist that cannot read the server changes nothing. One that finds no lineage and cannot make
      one has read the server and keeps what it read; neither uploads, nor touches locks or flags. */
  lemma PersistThatStopsEarly(s: Fields, f: Fetched, uuid: Option<string>, d: Delivery)
    requires s.readState.None?
    ensures f.FetchFailed? ==> Persist(s, f, uuid, d) == s
    ensures f.NoSnapshot? && uuid.None? ==>
              Persist(s, f, uuid, d) == s.(lineage := "", serial := 0, log := s.log + [Refreshed])
    ensures f.Snapshot? && f.lineage == "" && uuid.None? ==>
              Persist(s, f, uuid, d) ==
              s.(lineage := "", readLineage := "", serial := f.serial, readSerial := f.serial,
                 state := Some(f.content), readState := Some(f.content), log := s.log + [Refreshed])
  {
  }

  /** An upload of a refreshed manager carries its current state under its own lineage, and the
      serial the server sees rises exactly when it was not the largest signed number. */
  lemma UploadRaisesSerialIff(s: Fields, f: Fetched, uuid: Option<string>, d: Delivery)
    requires s.readState.Some? && Uploads(s, f, uuid, d)
    ensures var t := Persist(s, f, uuid, d);
            && |t.log| == |s.log| + 1
            && var e := t.log[|s.log|];
               && e.Uploaded? && e.content == s.state && e.lineage == s.lineage && e.force == s.forcePush
               && e.ok == d.Accepted?
               && (e.serial > Sent(s.serial) <==> s.serial != MAX_SENT)
  {
  }

  // ---------------------------------------------------------------- persisting again

  function UploadCount(log: seq<Effect>): nat {
    if log == [] then 0 else UploadCount(log[..|log| - 1]) + if log[|log| - 1].Uploaded? then 1 else 0
  }

  lemma UploadCountSnoc(log: seq<Effect>, e: Effect)
    ensures UploadCount(log + [e]) == UploadCount(log) + if e.Uploaded? then 1 else 0
  {
    assert (log + [e])[..|log|] == log;
  }

  /** A persist sends at most one upload, and sends one exactly when it attempts to and the state
      can be encoded. */
  lemma PersistUploadCount(s: Fields, f: Fetched, uuid: Option<string>, d: Delivery)
    ensures UploadCount(Persist(s, f, uuid, d).log) ==
            UploadCount(s.log) + if Uploads(s, f, uuid, d) then 1 else 0
  {
    UploadCountSnoc(s.log, Refreshed);
    if Uploads(s, f, uuid, d) {
      var p := Prepare(s, f, uuid);
      UploadCountSnoc(p.log, UploadOf(p, d));
    }
  }

  /** Whether a persist is idle when what was read is what is there. */
  lemma PersistSettled(t: Fields, f: Fetched, uuid: Option<string>, d: Delivery)
    requires t.readState == t.state && t.readLineage == t.lineage && t.readSerial == t.serial
    ensures Persist(t, f, uuid, d) == t <==>
              (t.state.Some? && t.lineage != "" && t.serial != 0) || (t.state.None? && f.FetchFailed?)
  {
    var r := Persist(t, f, uuid, d);
    if t.readState.None? && !f.FetchFailed? {
      assert |Refresh(t, f).log| > |t.log|;
      if Attempts(t, f, uuid) {
        assert Prepare(t, f, uuid).log == Refresh(t, f).log;
      }
      assert |r.log| > |t.log|;
    } else if Attempts(t, f, uuid) {
      assert d.NotEncoded? ==> r.serial != t.serial;
      assert !d.NotEncoded? ==> |r.log| > |t.log|;
    }
  }

  /** A successful upload of `s` leaves state, lineage and serial set. */
  predicate Settles(s: Fields, f: Fetched, uuid: Option<string>) {
    if s.readState.Some? then s.state.Some? && s.lineage != "" && s.serial != MAX_SERIAL
    else
      match f
      case Snapshot(_, lineage, serial) =>
        if lineage != "" then serial != 0 else uuid != Some("") && serial != MAX_SERIAL
      case _ => s.state.Some? && uuid != Some("")
  }

  /** A nil state was uploaded. */
  predicate LeavesNil(s: Fields, f: Fetched) {
    s.state.None? && (s.readState.Some? || !f.Snapshot?)
  }

  lemma SettlesIff(s: Fields, f: Fetched, uuid: Option<string>)
    requires Attempts(s, f, uuid)
    ensures var p := Prepare(s, f, uuid);
            && (Settles(s, f, uuid) <==> p.state.Some? && p.lineage != "" && p.serial != 0)
            && (LeavesNil(s, f) <==> p.state.None?)
  {
  }

  /** A persist right after a successful upload changes nothing exactly when what was uploaded had a
      state, a lineage and a serial, told by the inputs of the first persist, or when the state was nil
      and the second persist cannot look at the server. A first upload to an empty workspace, of
      any state and under any lineage, is followed by no other. */
  lemma PersistAgainChangesNothingIff(
      s: Fields, f: Fetched, uuid: Option<string>, f': Fetched, uuid': Option<string>, d: Delivery)
    requires Attempts(s, f, uuid)
    ensures var t := Persist(s, f, uuid, Accepted);
            Persist(t, f', uuid', d) == t <==> Settles(s, f, uuid) || (LeavesNil(s, f) && f'.FetchFailed?)
  {
    var p := Prepare(s, f, uuid);
    PersistSettled(Upload(p, true), f', uuid', d);
    SettlesIff(s, f, uuid);
  }

  /** The state a manager holds after writes, locks and unlocks. */
  function LastWritten(state: Option<Content>, events: seq<Event>): Option<Content> {
    if events == [] then state
    else
      match events[|events| - 1]
      case DoWrite(c) => c
      case _ => LastWritten(state, events[..|events| - 1])
  }

  predicate OnlyLocal(events: seq<Event>) {
    forall i :: 0 <= i < |events| ==> events[i].DoWrite? || events[i].DoLock? || events[i].DoUnlock?
  }

  lemma {:induction false} LocalRun(s: Fields, events: seq<Event>)
    requires OnlyLocal(events)
    ensures var t := Run(s, events);
            && t.state == LastWritten(s.state, events)
            && t.readState == s.readState && t.lineage == s.lineage && t.readLineage == s.readLineage
            && t.serial == s.serial && t.readSerial == s.readSerial
  {
    if events != [] {
      LocalRun(s, events[..|events| - 1]);
    }
  }

  /** The rejected persist had to refresh first, and found a proper snapshot. */
  predicate RefreshedFrom(s: Fields, f: Fetched) {
    s.readState.None? && f.Snapshot? && f.lineage != "" && f.serial != 0
  }

  /** The rejected persist moved the serial up to the one read, as only a migration write below it, or
      a counter that wraps, can have prepared. */
  predicate CaughtUp(s: Fields) {
    && s.readState.Some? && s.readLineage != "" && s.lineage == s.readLineage
    && s.readSerial != 0 && Next(s.serial) == s.readSerial
  }

  /** After a rejected upload, and any writes, locks and unlocks, the next persist attempts again,
      except exactly when the manager looks as if it had just read the state it holds: the rejected
      persist refreshed from a proper snapshot with that state, or its serial caught up with the one
      read and that state is the one read. */
  lemma FailedUploadRetriedIff(
      s: Fields, f: Fetched, uuid: Option<string>, between: seq<Event>, f': Fetched, uuid': Option<string>)
    requires Attempts(s, f, uuid) && OnlyLocal(between)
    requires !f'.FetchFailed? && uuid'.Some? && uuid != Some("")
    ensures var state := LastWritten(Persist(s, f, uuid, Rejected).state, between);
            Attempts(Run(Persist(s, f, uuid, Rejected), between), f', uuid') <==>
              && !(RefreshedFrom(s, f) && state == Some(f.content))
              && !(CaughtUp(s) && state == s.readState)
  {
    LocalRun(Persist(s, f, uuid, Rejected), between);
  }

  /** While the serial read is not ahead, as SerialsIncrease keeps it, the serial does not catch up. */
  lemma NeverCaughtUp(s: Fields)
    requires ReadBehind(s)
    ensures !CaughtUp(s)
  {
  }

  /** Refreshing alters the state only when there is a snapshot. */
  lemma PrepareShape(s: Fields, f: Fetched, uuid: Option<string>)
    requires Attempts(s, f, uuid)
    ensures var p := Prepare(s, f, uuid);
            && p.state == (if s.readState.Some? || !f.Snapshot? then s.state else Some(f.content))
            && p.forcePush == s.forcePush && p.uploadErr == s.uploadErr
            && p.disableLocks == s.disableLocks && p.lockInfo == s.lockInfo
            && (p.log == s.log || p.log == s.log + [Refreshed])
  {
  }

  /** A persist keeps the state it prepares, and the upload, if there is one, is of the fields
      prepared. */
  lemma PersistShape(s: Fields, f: Fetched, uuid: Option<string>, d: Delivery)
    ensures var t := Persist(s, f, uuid, d);
            && t.state == (if s.readState.Some? || !f.Snapshot? then s.state else Some(f.content))
            && (Uploads(s, f, uuid, d) ==> t.log == Prepare(s, f, uuid).log + [UploadOf(Prepare(s, f, uuid), d)])
  {
    if Attempts(s, f, uuid) {
      PrepareShape(s, f, uuid);
    }
  }

  /** A write survives the next persist exactly when the manager has read the server's state before,
      or the server has none to offer, or none but the one written; and whatever
      the persist uploads is the state it keeps. */
  lemma WriteSurvivesPersistIff(s: Fields, written: Content, f: Fetched, uuid: Option<string>, d: Delivery)
    ensures var t := Persist(Write(s, Some(written)), f, uuid, d);
            && (t.state == Some(written) <==> s.readState.Some? || !f.Snapshot? || f.content == written)
            && (t.state != Some(written) ==> t.state == Some(f.content))
            && (Uploads(Write(s, Some(written)), f, uuid, d) ==>
                  t.log != [] && var e := t.log[|t.log| - 1]; e.Uploaded? && e.content == t.state && !e.force)
  {
    PersistShape(Write(s, Some(written)), f, uuid, d);
    if Uploads(Write(s, Some(written)), f, uuid, d) {
      PrepareShape(Write(s, Some(written)), f, uuid);
    }
  }

  /** Forced uploads come only from forced migrations: after any run the flag is what the last
      accepted write left, refreshes and persists notwithstanding. */
  function ForcedBy(forced: bool, events: seq<Event>): bool {
    if events == [] then forced
    else
      match events[|events| - 1]
      case DoWrite(_) => false
      case DoMigrate(_, _, _, force, valid) =>
        if force || valid then force else ForcedBy(forced, events[..|events| - 1])
      case _ => ForcedBy(forced, events[..|events| - 1])
  }

  lemma StepForce(s: Fields, e: Event)
    ensures Step(s, e).forcePush ==
            if e.DoWrite? then false else if e.DoMigrate? && (e.force || e.valid) then e.force else s.forcePush
  {
    if e.DoPersist? && Attempts(s, e.fetched, e.uuid) {
      PrepareShape(s, e.fetched, e.uuid);
    }
  }

  lemma {:induction false} ForceIsLastWrite(s: Fields, events: seq<Event>)
    ensures Run(s, events).forcePush == ForcedBy(s.forcePush, events)
  {
    if events != [] {
      ForceIsLastWrite(s, events[..|events| - 1]);
      StepForce(Run(s, events[..|events| - 1]), events[|events| - 1]);
    }
  }

  /** A new manager that writes, locks and unlocks, and persists to an empty workspace, uploads once, as
      serial 1 under the lineage generated; persisting again then uploads nothing. */
  lemma FirstPersist(events: seq<Event>, uuid: string, d: Delivery, f: Fetched, uuid': Option<string>, d': Delivery)
    requires OnlyLocal(events) && !d.NotEncoded?
    ensures var s := Run(NEW, events);
            var t := Persist(s, NoSnapshot, Some(uuid), d);
            && t.log == s.log + [Refreshed, Uploaded(1, uuid, LastWritten(None, events), false, d.Accepted?)]
            && (d.Accepted? && LastWritten(None, events).Some? && uuid != "" ==> Persist(t, f, uuid', d') == t)
  {
    LocalRun(NEW, events);
    ForceIsLastWrite(NEW, events);
    LocalIsUnforced(events);
    var s := Run(NEW, events);
    FirstUploadIs(s, NoSnapshot, Some(uuid), d);
    if d.Accepted? {
      PersistAgainChangesNothingIff(s, NoSnapshot, Some(uuid), f, uuid', d');
    }
  }

  lemma {:induction false} LocalIsUnforced(events: seq<Event>)
    requires OnlyLocal(events)
    ensures !ForcedBy(false, events)
  {
    if events != [] {
      LocalIsUnforced(events[..|events| - 1]);
    }
  }

  // ---------------------------------------------------------------- inputs on the failing side

  /** A new manager, with locks enabled. */
  const NEW: Fields := Fields("", "", 0, 0, None, None, false, false, false, None, [])

  /** A write before the first refresh that is lost, in an upload that is rejected and that the next
      persist does not retry. */
  lemma LostWriteIsNotRetried(f: Fetched, uuid: Option<string>)
    ensures var t := Persist(Write(NEW, Some("w")), Snapshot("c", "l", 1), None, Rejected);
            && t.state == Some("c") && FailedUpload(t.log[|t.log| - 1])
            && Persist(t, f, uuid, Accepted) == t
  {
  }

  /** A migration write just below the serial read, and a rejected upload that is not retried. */
  lemma LoweredSerialIsNotRetried(f: Fetched, uuid: Option<string>)
    ensures var r := Refresh(NEW, Snapshot("c", "l", 5));
            var t := Persist(Migrate(r, Some("c"), "l", 4, true, false), NoSnapshot, None, Rejected);
            FailedUpload(t.log[|t.log| - 1]) && Persist(t, f, uuid, Accepted) == t
  {
  }

  /** A first upload of a nil state that is accepted, and a second persist that uploads again. */
  lemma NilStateIsUploadedAgain()
    ensures var t := Persist(NEW, NoSnapshot, Some("u"), Accepted);
            && t.uploadErr == false && UploadCount(t.log) == 1
            && UploadCount(Persist(t, NoSnapshot, Some("u"), Accepted).log) == 2
  {
    var t := Persist(NEW, NoSnapshot, Some("u"), Accepted);
    PersistUploadCount(NEW, NoSnapshot, Some("u"), Accepted);
    PersistUploadCount(t, NoSnapshot, Some("u"), Accepted);
  }

  /** From a snapshot just below the largest signed number, the second upload is sent with a lower
      serial than the first. */
  lemma SerialsFallAtSignedMaximum()
    ensures var t := Run(NEW, [DoRefresh(Snapshot("c", "l", MAX_SENT - 1)),
                               DoWrite(Some("a")), DoPersist(NoSnapshot, None, Accepted),
                               DoWrite(Some("b")), DoPersist(NoSnapshot, None, Accepted)]);
            !EpochsIncrease(t.log)
  {
    var r := Refresh(NEW, Snapshot("c", "l", MAX_SENT - 1));
    var first := Persist(Write(r, Some("a")), NoSnapshot, None, Accepted);
    var s := Write(first, Some("b"));
    var e := DoPersist(NoSnapshot, None, Accepted);
    RunFive(NEW, DoRefresh(Snapshot("c", "l", MAX_SENT - 1)), DoWrite(Some("a")), e, DoWrite(Some("b")), e);
    EpochSnoc([], Refreshed);
    EpochSnoc([Refreshed], first.log[1]);
    assert r.log == [Refreshed] && first.log == [Refreshed] + [first.log[1]];
    PassingBreaksOrder(s, e);
  }

  lemma RunFive(s: Fields, a: Event, b: Event, c: Event, d: Event, e: Event)
    ensures Run(s, [a, b, c, d, e]) == Step(Step(Step(Step(Step(s, a), b), c), d), e)
  {
    RunSnoc(s, [], a);
    RunSnoc(s, [a], b);
    RunSnoc(s, [a, b], c);
    RunSnoc(s, [a, b, c], d);
    RunSnoc(s, [a, b, c, d], e);
    assert [] + [a] == [a] && [a] + [b] == [a, b] && [a, b] + [c] == [a, b, c];
    assert [a, b, c] + [d] == [a, b, c, d] && [a, b, c, d] + [e] == [a, b, c, d, e];
  }

  lemma RunSnoc(s: Fields, events: seq<Event>, e: Event)
    ensures Run(s, events + [e]) == Step(Run(s, events), e)
  {
    assert (events + [e])[..|events|] == events;
  }

  // ---------------------------------------------------------------- unlocking

  function Releases(log: seq<Effect>): nat {
    if log == [] then 0
    else Releases(log[..|log| - 1]) + if log[|log| - 1].Unlocked? || log[|log| - 1].ForceUnlocked? then 1 else 0
  }

  lemma ReleasesSnoc(log: seq<Effect>, e: Effect)
    ensures Releases(log + [e]) == Releases(log) + if e.Unlocked? || e.ForceUnlocked? then 1 else 0
  {
    assert (log + [e])[..|log|] == log;
  }

  lemma PersistReleasesNothing(s: Fields, f: Fetched, uuid: Option<string>, d: Delivery)
    ensures Releases(Persist(s, f, uuid, d).log) == Releases(s.log)
  {
    ReleasesSnoc(s.log, Refreshed);
    if Uploads(s, f, uuid, d) {
      var t := Prepare(s, f, uuid);
      ReleasesSnoc(t.log, UploadOf(t, d));
    }
  }

  lemma FlaggedStepReleasesNothing(s: Fields, e: Event)
    requires s.uploadErr
    ensures var t := Step(s, e); t.uploadErr && Releases(t.log) == Releases(s.log)
  {
    if e.DoPersist? {
      FlaggedPersistReleasesNothing(s, e.fetched, e.uuid, e.delivery);
    } else {
      ReleasesSnoc(s.log, Refreshed);
      ReleasesSnoc(s.log, LockRequested);
    }
  }

  lemma FlaggedPersistReleasesNothing(s: Fields, f: Fetched, uuid: Option<string>, d: Delivery)
    requires s.uploadErr
    ensures var t := Persist(s, f, uuid, d); t.uploadErr && Releases(t.log) == Releases(s.log)
  {
    PersistReleasesNothing(s, f, uuid, d);
    if Attempts(s, f, uuid) {
      PrepareShape(s, f, uuid);
    }
  }

  lemma {:induction false} FlaggedRunReleasesNothing(s: Fields, events: seq<Event>)
    requires s.uploadErr
    ensures var t := Run(s, events); t.uploadErr && Releases(t.log) == Releases(s.log)
  {
    if events != [] {
      var last := |events| - 1;
      FlaggedRunReleasesNothing(s, events[..last]);
      FlaggedStepReleasesNothing(Run(s, events[..last]), events[last]);
    }
  }

  predicate FailedUpload(e: Effect) {
    e.Uploaded? && !e.ok
  }

  predicate HasFailure(log: seq<Effect>) {
    exists e :: e in log && FailedUpload(e)
  }

  lemma FailureSnoc(log: seq<Effect>, e: Effect)
    ensures HasFailure(log + [e]) <==> HasFailure(log) || FailedUpload(e)
  {
    assert e in log + [e];
    assert forall x :: x in log ==> x in log + [e];
  }

  /** The error flag is up exactly when an upload has failed, in every run. */
  lemma {:induction false} FlagMeansFailure(s: Fields, events: seq<Event>)
    requires s.uploadErr <==> HasFailure(s.log)
    ensures var t := Run(s, events); t.uploadErr <==> HasFailure(t.log)
  {
    if events != [] {
      var last := |events| - 1;
      FlagMeansFailure(s, events[..last]);
      StepFlag(Run(s, events[..last]), events[last]);
    }
  }

  lemma StepFlag(s: Fields, e: Event)
    requires s.uploadErr <==> HasFailure(s.log)
    ensures var t := Step(s, e); t.uploadErr <==> HasFailure(t.log)
  {
    if e.DoPersist? && Uploads(s, e.fetched, e.uuid, e.delivery) {
      PrepareShape(s, e.fetched, e.uuid);
      PersistShape(s, e.fetched, e.uuid, e.delivery);
      var p := Prepare(s, e.fetched, e.uuid);
      FailureSnoc(s.log, Refreshed);
      FailureSnoc(p.log, UploadOf(p, e.delivery));
    } else {
      FailureSnoc(s.log, Refreshed);
      FailureSnoc(s.log, LockRequested);
      FailureSnoc(s.log, Unlocked);
      FailureSnoc(s.log, ForceUnlocked);
    }
  }

  lemma {:induction false} RunConcat(s: Fields, a: seq<Event>, b: seq<Event>)
    ensures Run(s, a + b) == Run(Run(s, a), b)
  {
    if b == [] {
      assert a + b == a;
    } else {
      var last := |b| - 1;
      assert (a + b)[..|a| + last] == a + b[..last];
      RunConcat(s, a, b[..last]);
    }
  }

  /** Once any upload of a run has failed, the rest of the run never releases the workspace. */
  lemma NeverReleasedAfterFailure(s: Fields, before: seq<Event>, after: seq<Event>)
    requires s.log == [] && !s.uploadErr
    requires HasFailure(Run(s, before).log)
    ensures Releases(Run(s, before + after).log) == Releases(Run(s, before).log)
  {
    FlagMeansFailure(s, before);
    RunConcat(s, before, after);
    FlaggedRunReleasesNothing(Run(s, before), after);
  }

  /** The id of the last lock the server granted. */
  function LastLock(held: Option<string>, events: seq<Event>): Option<string> {
    if events == [] then held
    else
      match events[|events| - 1]
      case DoLock(id, true) => Some(id)
      case _ => LastLock(held, events[..|events| - 1])
  }

  lemma LockKept(s: Fields, e: Event)
    ensures var t := Step(s, e);
            && t.disableLocks == s.disableLocks
            && t.lockInfo == if !s.disableLocks && e.DoLock? && e.lockOk then Some(e.id) else s.lockInfo
  {
    if e.DoPersist? && Attempts(s, e.fetched, e.uuid) {
      PrepareShape(s, e.fetched, e.uuid);
    }
  }

  lemma {:induction false} LockHeld(s: Fields, events: seq<Event>)
    ensures var t := Run(s, events);
            && t.disableLocks == s.disableLocks
            && t.lockInfo == if s.disableLocks then s.lockInfo else LastLock(s.lockInfo, events)
  {
    if events != [] {
      LockHeld(s, events[..|events| - 1]);
      LockKept(Run(s, events[..|events| - 1]), events[|events| - 1]);
    }
  }

  /** After any run an unlock is one request to the server or none: none when locks are disabled or an
      upload of the run has failed; otherwise a release exactly when the id is that of the last lock
      granted, or, if none was, a forced one exactly when the id is the workspace's name. */
  lemma UnlockReleasesIff(s: Fields, events: seq<Event>, id: string, workspace: string)
    requires s.log == [] && !s.uploadErr && s.lockInfo.None?
    ensures var t, held := Run(s, events), LastLock(None, events);
            Run(s, events + [DoUnlock(id, workspace)]) == t.(log := t.log +
              if s.disableLocks || HasFailure(t.log) then []
              else if held == Some(id) then [Unlocked]
              else if held.None? && id == workspace then [ForceUnlocked]
              else [])
  {
    LockHeld(s, events);
    FlagMeansFailure(s, events);
    RunSnoc(s, events, DoUnlock(id, workspace));
    var t := Run(s, events);
    assert t.log + [] == t.log;
  }

  predicate AboutLocks(e: Effect) {
    e.LockRequested? || e.Unlocked? || e.ForceUnlocked?
  }

  lemma StepWithoutLocks(s: Fields, e: Event)
    requires s.disableLocks && forall i :: 0 <= i < |s.log| ==> !AboutLocks(s.log[i])
    ensures var t := Step(s, e); t.disableLocks && forall i :: 0 <= i < |t.log| ==> !AboutLocks(t.log[i])
  {
    if e.DoPersist? && Attempts(s, e.fetched, e.uuid) {
      PrepareShape(s, e.fetched, e.uuid);
      PersistShape(s, e.fetched, e.uuid, e.delivery);
    }
  }

  /** With locks disabled no run asks the server to lock or unlock. */
  lemma {:induction false} NoLocksWhenDisabled(s: Fields, events: seq<Event>)
    requires s.disableLocks && s.log == []
    ensures var t := Run(s, events); t.disableLocks && forall i :: 0 <= i < |t.log| ==> !AboutLocks(t.log[i])
  {
    if events != [] {
      NoLocksWhenDisabled(s, events[..|events| - 1]);
      StepWithoutLocks(Run(s, events[..|events| - 1]), events[|events| - 1]);
    }
  }

  /** After any run a lock with locks enabled is one request to the server, and the lock held is the new
      one exactly when the server granted it; with locks disabled nothing happens. */
  lemma LockIsRequested(s: Fields, events: seq<Event>, id: string, ok: bool)
    requires s.lockInfo.None?
    ensures var t, held := Run(s, events), LastLock(None, events);
            Run(s, events + [DoLock(id, ok)]) ==
            if s.disableLocks then t
            else t.(lockInfo := if ok then Some(id) else held, log := t.log + [LockRequested])
  {
    LockHeld(s, events);
    RunSnoc(s, events, DoLock(id, ok));
  }
}
