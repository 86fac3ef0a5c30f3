/** Sealed values over the SQL provider: what is sealed under the active key of
    some moment stays readable through every interleaving, until its version is
    gone. */
module DekSqlSealed {
  import opened Wrappers
  import opened Bytes
  import opened StoreErrors
  import opened MasterKek
  import opened KeyStore
  import opened Encrypted
  import opened DekTable
  import opened DekTransactions
  import opened DekRefinement
  import opened DekSqlRuns
  import DekRuns
  import Envelope

  /** The read path against the table: peek, `dek_at_version`, `open`. */
  function SqlReadBack(env: DekRuns.Env, t: Table, c: ControllerId, k: Bytes, envelope: Bytes, aad: AadRecord): Result<Bytes, StoreError> {
    match Envelope.Peek(envelope)
    case Err(e) => Err(e)
    case Ok(v) =>
      match SqlDekAtVersion(env.master, t, c, k, v)
      case Err(e) => Err(e)
      case Ok(dek) => Open(env.ciphers, (id: byte, version: u32) => Ok(dek), envelope, aad)
  }

  lemma ReadsAgree(env: DekRuns.Env, t: Table, x: DekRuns.Sealed)
    requires Stored(t) && x.controller.Tenant?
    ensures SqlReadBack(env, t, x.controller, x.recordKind, x.envelope, x.aad) == DekRuns.ReadBack(env, t, x)
  {
    var v := Envelope.Peek(x.envelope);
    if v.Ok? { DekAtVersionAgrees(env.master, t, x.controller, x.recordKind, v.value); }
  }

  /** Sealing changes nothing the database knows of. */
  lemma SealMatches(env: DekRuns.Env, db: Db, s: DekRuns.World, x: DekRuns.Sealed, nonce: Bytes)
    requires env.Valid() && Inv(env.master, db) && Matches(db, s) && x.controller.Tenant?
    requires IsUtf8(x.plaintext) && |nonce| == env.ciphers[env.defaultAlgoId].nonceSize
    requires var active := SqlActiveDekFor(env.master, db.table, x.controller, x.recordKind);
             && active.Ok? && active.value.1 == x.version
             && Seal(env.ciphers[env.defaultAlgoId], active.value.0, x.version, x.plaintext, x.aad, nonce) == Ok(x.envelope)
    ensures var e := DekRuns.SealValue(x.controller, x.recordKind, x.plaintext, x.aad, nonce);
            && DekRuns.ValidEvent(env, e)
            && DekRuns.Apply(env, s, e) == s.(sealed := s.sealed + [x])
            && Matches(db, DekRuns.Apply(env, s, e))
  {
    ActiveDekForAgrees(env.master, db.table, x.controller, x.recordKind);
  }

  lemma StillSealed(env: DekRuns.Env, s: DekRuns.World, es: seq<DekRuns.Event>, x: DekRuns.Sealed)
    requires env.Valid() && DekRuns.ValidRun(env, es) && DekRuns.Inv(env, s) && x in s.sealed
    ensures DekRuns.SealedOk(env, DekRuns.Run(env, s, es), x)
  {
    DekRuns.RunKeepsInv(env, s, es);
    DekRuns.GoneIsForever(env, s, es);
    var i :| 0 <= i < |s.sealed| && s.sealed[i] == x;
    assert DekRuns.Run(env, s, es).sealed[i] == x;
  }

  /** `x` was sealed with the key that was active after `es`. */
  ghost predicate SealedAfter(env: DekRuns.Env, es: seq<Event>, x: DekRuns.Sealed, nonce: Bytes)
    requires env.Valid() && Run(env.master, EMPTY, es).Some?
  {
    var active := SqlActiveDekFor(env.master, Run(env.master, EMPTY, es).value.table, x.controller, x.recordKind);
    && x.controller.Tenant? && IsUtf8(x.plaintext) && |nonce| == env.ciphers[env.defaultAlgoId].nonceSize
    && active.Ok? && active.value.1 == x.version
    && Seal(env.ciphers[env.defaultAlgoId], active.value.0, x.version, x.plaintext, x.aad, nonce) == Ok(x.envelope)
  }

  /** The in-memory world that goes with the table after `fs`. */
  lemma SealedWorld(env: DekRuns.Env, es: seq<Event>, fs: seq<Event>, x: DekRuns.Sealed, nonce: Bytes) returns (s: DekRuns.World)
    requires env.Valid() && Run(env.master, EMPTY, es).Some? && Run(env.master, Run(env.master, EMPTY, es).value, fs).Some?
    requires SealedAfter(env, es, x, nonce)
    ensures var db := Run(env.master, Run(env.master, EMPTY, es).value, fs).value;
            Inv(env.master, db) && Matches(db, s) && DekRuns.Inv(env, s) && DekRuns.SealedOk(env, s, x)
  {
    var db, trace := Run(env.master, EMPTY, es).value, Trace(env.master, EMPTY, es);
    SqlRefinesMemory(env, es);
    var s0 := DekRuns.Run(env, DekRuns.START, trace);
    DekRuns.StartInv(env);
    DekRuns.RunKeepsInv(env, DekRuns.START, trace);
    SealMatches(env, db, s0, x, nonce);
    var e := DekRuns.SealValue(x.controller, x.recordKind, x.plaintext, x.aad, nonce);
    DekRuns.ApplyKeepsInv(env, s0, e);
    var s1 := DekRuns.Apply(env, s0, e);
    RunRefines(env, db, s1, fs);
    assert s1.sealed[|s0.sealed|] == x;
    s := DekRuns.Run(env, s1, Trace(env.master, db, fs));
    DekRuns.RunKeepsInv(env, s1, Trace(env.master, db, fs));
    StillSealed(env, s1, Trace(env.master, db, fs), x);
  }

  /** Whatever interleaving `es` led to the moment its key was looked up, and
      whatever `fs` follows: a value sealed under that key reads back to its
      plaintext from the table exactly as long as its version's row is there,
      and is refused as an unknown version once it is not. */
  lemma SqlSealedValuesOpen(env: DekRuns.Env, es: seq<Event>, fs: seq<Event>, x: DekRuns.Sealed, nonce: Bytes)
    requires env.Valid() && Run(env.master, EMPTY, es).Some? && Run(env.master, Run(env.master, EMPTY, es).value, fs).Some?
    requires SealedAfter(env, es, x, nonce)
    ensures var t := Run(env.master, Run(env.master, EMPTY, es).value, fs).value.table;
            SqlReadBack(env, t, x.controller, x.recordKind, x.envelope, x.aad) ==
              if x.Key() in t then Ok(x.plaintext) else Err(NoSuchDekVersion(x.version))
  {
    var s := SealedWorld(env, es, fs, x, nonce);
    ReadsAgree(env, s.wrappings, x);
  }

  /** Once its row is gone it stays gone: every interleaving `gs` that follows
      refuses the value. */
  lemma SqlUnreadableForever(env: DekRuns.Env, es: seq<Event>, fs: seq<Event>, gs: seq<Event>, x: DekRuns.Sealed, nonce: Bytes)
    requires env.Valid() && Run(env.master, EMPTY, es).Some? && Run(env.master, Run(env.master, EMPTY, es).value, fs).Some?
    requires SealedAfter(env, es, x, nonce)
    requires var db := Run(env.master, Run(env.master, EMPTY, es).value, fs).value;
             x.Key() !in db.table && Run(env.master, db, gs).Some?
    ensures var t := Run(env.master, Run(env.master, Run(env.master, EMPTY, es).value, fs).value, gs).value.table;
            SqlReadBack(env, t, x.controller, x.recordKind, x.envelope, x.aad) == Err(NoSuchDekVersion(x.version))
  {
    var db := Run(env.master, Run(env.master, EMPTY, es).value, fs).value;
    var s := SealedWorld(env, es, fs, x, nonce);
    RunRefines(env, db, s, gs);
    DekRuns.GoneIsForever(env, s, Trace(env.master, db, gs));
    ReadsAgree(env, Run(env.master, db, gs).value.table, x);
  }
}
