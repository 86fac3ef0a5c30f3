/** Whole runs of the DEK lifecycle with values being sealed along the way. */
module DekRuns {
  import opened Wrappers
  import opened Bytes
  import opened StoreErrors
  import opened MasterKek
  import opened KeyStore
  import opened KeyAnswers
  import Envelope
  import opened Encrypted

  datatype Env = Env(master: Master, ciphers: Envelope.Ciphers, defaultAlgoId: byte)
  {
    ghost predicate Valid() {
      master.Valid() && Envelope.ValidCiphers(ciphers) && defaultAlgoId in ciphers
    }
  }

  /** A value that was sealed: whose it is, and what went in. */
  datatype Sealed = Sealed(controller: ControllerId, recordKind: Bytes, version: u32,
                           envelope: Bytes, plaintext: Bytes, aad: AadRecord)
  {
    function Key(): WrappingKey { WrappingKey(controller, recordKind, version) }
  }

  datatype Event =
    | Generate(c: ControllerId, k: Bytes, dek: Bytes, nonce: Bytes)
    | Rotate(c: ControllerId, k: Bytes, dek: Bytes, nonce: Bytes)
    | Shred(c: ControllerId, k: Bytes, version: u32)
    | Erase(id: Uuid)
    | SealValue(c: ControllerId, k: Bytes, plaintext: Bytes, aad: AadRecord, nonce: Bytes)

  /** The table, and the history the theorems speak about: how many versions
      each pair was issued, which were shredded, which tenants were erased and
      every value sealed so far. */
  datatype World = World(wrappings: Wrappings, issued: map<(ControllerId, Bytes), nat>,
                         shredded: set<WrappingKey>, erased: set<ControllerId>, sealed: seq<Sealed>)
  {
    function Issued(c: ControllerId, k: Bytes): nat {
      if (c, k) in issued then issued[(c, k)] else 0
    }
  }

  const START := World(map[], map[], {}, {}, [])

  /** Random draws have the right length; a `str` is text. */
  ghost predicate ValidEvent(env: Env, e: Event)
    requires env.Valid()
  {
    match e
    case Generate(_, _, dek, nonce) => |dek| == DEK_LEN && |nonce| == env.master.cipher.nonceSize
    case Rotate(_, _, dek, nonce) => |dek| == DEK_LEN && |nonce| == env.master.cipher.nonceSize
    case SealValue(_, _, plaintext, _, nonce) => IsUtf8(plaintext) && |nonce| == env.ciphers[env.defaultAlgoId].nonceSize
    case _ => true
  }

  ghost function Apply(env: Env, s: World, e: Event): World
    requires env.Valid() && ValidEvent(env, e)
  {
    match e
    case Generate(c, k, dek, nonce) =>
      if c in s.erased then s  // the foreign key to `tenants` refuses the row
      else
        var (w, r) := GenerateDek(env.master, s.wrappings, c, k, dek, nonce);
        if r.Ok? then s.(wrappings := w, issued := s.issued[(c, k) := s.Issued(c, k) + 1]) else s
    case Rotate(c, k, dek, nonce) =>
      var (w, r) := RotateDek(env.master, s.wrappings, c, k, dek, nonce);
      if r.Ok? then s.(wrappings := w, issued := s.issued[(c, k) := s.Issued(c, k) + 1]) else s
    case Shred(c, k, v) =>
      var (w, r) := ShredDek(s.wrappings, c, k, v);
      if r.Ok? then s.(wrappings := w, shredded := s.shredded + {WrappingKey(c, k, v)}) else s
    case Erase(id) =>
      s.(wrappings := EraseTenant(s.wrappings, id), erased := s.erased + {Tenant(id)})
    case SealValue(c, k, plaintext, aad, nonce) =>
      match ActiveDekFor(env.master, s.wrappings, c, k)
      case Err(_) => s
      case Ok((dek, v)) =>
        match Seal(env.ciphers[env.defaultAlgoId], dek, v, plaintext, aad, nonce)
        case Err(_) => s
        case Ok(envelope) => s.(sealed := s.sealed + [Sealed(c, k, v, envelope, plaintext, aad)])
  }

  ghost predicate ValidRun(env: Env, es: seq<Event>)
    requires env.Valid()
  {
    forall e | e in es :: ValidEvent(env, e)
  }

  ghost function Run(env: Env, s: World, es: seq<Event>): World
    requires env.Valid() && ValidRun(env, es)
    decreases es
  {
    if es == [] then s else Run(env, Apply(env, s, es[0]), es[1..])
  }

  /** The read path: peek at the version, resolve that DEK, open with it. */
  function ReadBack(env: Env, w: Wrappings, s: Sealed): Result<Bytes, StoreError> {
    match Envelope.Peek(s.envelope)
    case Err(e) => Err(e)
    case Ok(v) =>
      match DekAtVersion(env.master, w, s.controller, s.recordKind, v)
      case Err(e) => Err(e)
      case Ok(dek) => Open(env.ciphers, (id: byte, version: u32) => Ok(dek), s.envelope, s.aad)
  }

  // ---- The invariant of every run.

  /** Live and shredded versions partition `1..=issued`, and the greatest live
      version is the number issued. */
  ghost predicate Conserved(s: World, c: ControllerId, k: Bytes) {
    && (forall v: u32 :: 1 <= v <= s.Issued(c, k) <==> WrappingKey(c, k, v) in s.wrappings || WrappingKey(c, k, v) in s.shredded)
    && (PairEmpty(s.wrappings, c, k) ==> s.Issued(c, k) == 0)
    && (forall v: u32 :: IsTop(s.wrappings, c, k, v) ==> s.Issued(c, k) == v)
  }

  ghost predicate SealedOk(env: Env, s: World, x: Sealed) {
    && Envelope.Peek(x.envelope) == Ok(x.version)
    && (x.Key() in s.wrappings ==> ReadBack(env, s.wrappings, x) == Ok(x.plaintext))
    && (x.Key() !in s.wrappings ==> x.Key() in s.shredded || x.controller in s.erased)
  }

  ghost predicate Inv(env: Env, s: World) {
    && KeyStore.Valid(s.wrappings)
    && s.wrappings.Keys !! s.shredded
    && (forall key | key in s.wrappings :: key.controller !in s.erased)
    && (forall c: ControllerId, k: Bytes :: c !in s.erased ==> Conserved(s, c, k))
    && (forall x | x in s.sealed :: SealedOk(env, s, x))
  }

  /** Reading back looks at nothing but the wrapped bytes of one row. */
  lemma ReadBackFrame(env: Env, s: World, s': World, x: Sealed)
    requires SealedOk(env, s, x) && SameWrapped(s.wrappings, s'.wrappings)
    requires x.Key() in s'.wrappings ==> x.Key() in s.wrappings
    requires x.Key() in s.wrappings && x.Key() !in s'.wrappings ==> x.Key() in s'.shredded || x.controller in s'.erased
    requires s.shredded <= s'.shredded && s.erased <= s'.erased
    ensures SealedOk(env, s', x)
  {
  }

  lemma ConservedElsewhere(s: World, s': World, c: ControllerId, k: Bytes)
    requires Conserved(s, c, k) && s.Issued(c, k) == s'.Issued(c, k)
    requires forall key | key in s.wrappings && Of(key, c, k) :: key in s'.wrappings && s'.wrappings[key] == s.wrappings[key]
    requires forall key | key in s'.wrappings && Of(key, c, k) :: key in s.wrappings
    requires forall v: u32 :: WrappingKey(c, k, v) in s.shredded <==> WrappingKey(c, k, v) in s'.shredded
    ensures Conserved(s', c, k)
  {
    assert forall v: u32 | WrappingKey(c, k, v) in s.wrappings :: Of(WrappingKey(c, k, v), c, k);
    assert forall v: u32 | WrappingKey(c, k, v) in s'.wrappings :: Of(WrappingKey(c, k, v), c, k);
    forall v: u32 | IsTop(s'.wrappings, c, k, v) ensures s'.Issued(c, k) == v {
      assert IsTop(s.wrappings, c, k, v);
    }
  }

  /** A new greatest version that is one past all issued ones. */
  lemma IssueKeepsInv(env: Env, s: World, w: Wrappings, c: ControllerId, k: Bytes, v: u32)
    requires Inv(env, s) && c !in s.erased && v == s.Issued(c, k) + 1
    requires KeyStore.Valid(w) && SameElsewhere(s.wrappings, w, c, k) && SameWrapped(s.wrappings, w)
    requires IsTop(w, c, k, v) && w.Keys == s.wrappings.Keys + {WrappingKey(c, k, v)}
    ensures Inv(env, s.(wrappings := w, issued := s.issued[(c, k) := s.Issued(c, k) + 1]))
    ensures WrappingKey(c, k, v) !in s.wrappings && WrappingKey(c, k, v) !in s.shredded
  {
    var s' := s.(wrappings := w, issued := s.issued[(c, k) := s.Issued(c, k) + 1]);
    var key := WrappingKey(c, k, v);
    assert Conserved(s, c, k);
    assert key !in s.wrappings && key !in s.shredded;
    forall c': ControllerId, k': Bytes | c' !in s'.erased ensures Conserved(s', c', k') {
      assert Conserved(s, c', k');
      if c' != c || k' != k {
        ConservedElsewhere(s, s', c', k');
      } else {
        assert Of(key, c, k);
      }
    }
    forall x | x in s'.sealed ensures SealedOk(env, s', x) {
      ReadBackFrame(env, s, s', x);
    }
  }

  /** A retired version moves from the live ones to the shredded ones. */
  lemma RemoveKeepsInv(env: Env, s: World, s': World, c: ControllerId, k: Bytes, v: u32, t: u32)
    requires Inv(env, s) && WrappingKey(c, k, v) in s.wrappings
    requires s' == s.(wrappings := s'.wrappings, shredded := s.shredded + {WrappingKey(c, k, v)})
    requires KeyStore.Valid(s'.wrappings) && SameWrapped(s.wrappings, s'.wrappings) && SameElsewhere(s.wrappings, s'.wrappings, c, k)
    requires s'.wrappings.Keys == s.wrappings.Keys - {WrappingKey(c, k, v)}
    requires IsTop(s.wrappings, c, k, t) && IsTop(s'.wrappings, c, k, t)
    ensures Inv(env, s')
  {
    assert Of(WrappingKey(c, k, t), c, k);
    forall c': ControllerId, k': Bytes | c' !in s'.erased ensures Conserved(s', c', k') {
      assert Conserved(s, c', k');
      if c' != c || k' != k {
        ConservedElsewhere(s, s', c', k');
      }
    }
    forall x | x in s'.sealed ensures SealedOk(env, s', x) {
      ReadBackFrame(env, s, s', x);
    }
  }

  lemma ShredKeepsInv(env: Env, s: World, c: ControllerId, k: Bytes, v: u32)
    requires env.Valid() && Inv(env, s)
    ensures Inv(env, Apply(env, s, Shred(c, k, v)))
  {
    ShredKeepsValid(s.wrappings, c, k, v);
    if ShredDek(s.wrappings, c, k, v).1.Ok? {
      var s' := Apply(env, s, Shred(c, k, v));
      var t: u32 :| t != v && IsTop(s.wrappings, c, k, t) && IsTop(s'.wrappings, c, k, t);
      RemoveKeepsInv(env, s, s', c, k, v, t);
    }
  }

  lemma EraseKeepsInv(env: Env, s: World, id: Uuid)
    requires env.Valid() && Inv(env, s)
    ensures Inv(env, Apply(env, s, Erase(id)))
  {
    EraseKeepsValid(s.wrappings, id);
    var s' := Apply(env, s, Erase(id));
    forall c: ControllerId, k: Bytes | c !in s'.erased ensures Conserved(s', c, k) {
      ConservedElsewhere(s, s', c, k);
    }
    forall x | x in s'.sealed ensures SealedOk(env, s', x) {
      ReadBackFrame(env, s, s', x);
    }
  }

  lemma SealKeepsInv(env: Env, s: World, e: Event)
    requires env.Valid() && Inv(env, s) && e.SealValue? && ValidEvent(env, e)
    ensures Inv(env, Apply(env, s, e))
  {
    var SealValue(c, k, plaintext, aad, nonce) := e;
    var s' := Apply(env, s, e);
    if s' != s {
      var (dek, v) := ActiveDekFor(env.master, s.wrappings, c, k).value;
      var id := env.defaultAlgoId;
      var envelope := Seal(env.ciphers[id], dek, v, plaintext, aad, nonce).value;
      Envelope.DecryptEncrypt(env.ciphers, (i: byte, u: u32) => Ok(dek), id, dek, v, plaintext, aad.ToBytes(), nonce);
      var x := Sealed(c, k, v, envelope, plaintext, aad);
      assert SealedOk(env, s', x);
      forall y | y in s.sealed ensures SealedOk(env, s', y) {
        ReadBackFrame(env, s, s', y);
      }
      forall c': ControllerId, k': Bytes | c' !in s'.erased ensures Conserved(s', c', k') {
        ConservedElsewhere(s, s', c', k');
      }
    }
  }

  lemma ApplyKeepsInv(env: Env, s: World, e: Event)
    requires env.Valid() && ValidEvent(env, e) && Inv(env, s)
    ensures Inv(env, Apply(env, s, e))
  {
    match e
    case Generate(c, k, dek, nonce) =>
      GenerateKeepsValid(env.master, s.wrappings, c, k, dek, nonce);
      var (w, r) := GenerateDek(env.master, s.wrappings, c, k, dek, nonce);
      if c !in s.erased && r.Ok? {
        assert Conserved(s, c, k);
        IssueKeepsInv(env, s, w, c, k, r.value);
      }
    case Rotate(c, k, dek, nonce) =>
      RotateKeepsValid(env.master, s.wrappings, c, k, dek, nonce);
      var (w, r) := RotateDek(env.master, s.wrappings, c, k, dek, nonce);
      if r.Ok? {
        assert WrappingKey(c, k, r.value.1) in s.wrappings;
        assert Conserved(s, c, k);
        IssueKeepsInv(env, s, w, c, k, r.value.0);
      }
    case Shred(c, k, v) => ShredKeepsInv(env, s, c, k, v);
    case Erase(id) => EraseKeepsInv(env, s, id);
    case SealValue(_, _, _, _, _) => SealKeepsInv(env, s, e);
  }

  lemma {:induction false} RunKeepsInv(env: Env, s: World, es: seq<Event>)
    requires env.Valid() && ValidRun(env, es) && Inv(env, s)
    ensures Inv(env, Run(env, s, es))
    decreases es
  {
    if es != [] {
      ApplyKeepsInv(env, s, es[0]);
      RunKeepsInv(env, Apply(env, s, es[0]), es[1..]);
    }
  }

  lemma StartInv(env: Env)
    ensures Inv(env, START)
  {
    assert forall c: ControllerId, k: Bytes :: PairEmpty(START.wrappings, c, k) && PairValid(START.wrappings, c, k);
    assert forall c: ControllerId, k: Bytes :: Conserved(START, c, k);
  }

  // ---- The theorems.

  /** Version conservation over every run: for a pair whose tenant was not
      erased, live and shredded versions are disjoint and together are exactly
      `1..=n`, where `n` counts the successful generate and rotate calls; the
      greatest live version is `n`, so the next one was never issued before. */
  lemma VersionConservation(env: Env, es: seq<Event>, c: ControllerId, k: Bytes)
    requires env.Valid() && ValidRun(env, es)
    ensures var s := Run(env, START, es);
            c !in s.erased ==>
              && s.wrappings.Keys !! s.shredded
              && (forall v: u32 :: 1 <= v <= s.Issued(c, k) <==>
                    WrappingKey(c, k, v) in s.wrappings || WrappingKey(c, k, v) in s.shredded)
              && NextVersion(s.wrappings, c, k) == s.Issued(c, k) + 1
  {
    StartInv(env);
    RunKeepsInv(env, START, es);
    var s := Run(env, START, es);
    if c !in s.erased {
      assert Conserved(s, c, k) && PairValid(s.wrappings, c, k);
    }
  }

  /** Sealed values stay readable: over every run, a value sealed under the
      then-active DEK opens to its plaintext through peek, `dek_at_version` and
      `open` exactly as long as its version's row is there, and reports
      `NoSuchDekVersion` once it is not. */
  lemma SealedValuesOpen(env: Env, es: seq<Event>, x: Sealed)
    requires env.Valid() && ValidRun(env, es) && x in Run(env, START, es).sealed
    ensures var s := Run(env, START, es);
            ReadBack(env, s.wrappings, x) ==
              if x.Key() in s.wrappings then Ok(x.plaintext) else Err(NoSuchDekVersion(x.version))
    ensures var s := Run(env, START, es);
            x.Key() !in s.wrappings ==> x.Key() in s.shredded || x.controller in s.erased
  {
    StartInv(env);
    RunKeepsInv(env, START, es);
    assert SealedOk(env, Run(env, START, es), x);
  }

  /** A shredded or erased version never comes back, and sealed values and
      erasures are never forgotten. */
  lemma {:induction false} GoneIsForever(env: Env, s: World, es: seq<Event>)
    requires env.Valid() && ValidRun(env, es) && Inv(env, s)
    ensures var s' := Run(env, s, es);
            && s.shredded <= s'.shredded && s.erased <= s'.erased && s.sealed <= s'.sealed
            && forall key | key in s.shredded || key.controller in s.erased :: key !in s'.wrappings
    decreases es
  {
    RunKeepsInv(env, s, es);
    if es != [] {
      ApplyKeepsInv(env, s, es[0]);
      GoneIsForever(env, Apply(env, s, es[0]), es[1..]);
    }
  }

  lemma {:induction false} RunConcat(env: Env, s: World, es: seq<Event>, fs: seq<Event>)
    requires env.Valid() && ValidRun(env, es) && ValidRun(env, fs)
    ensures ValidRun(env, es + fs) && Run(env, s, es + fs) == Run(env, Run(env, s, es), fs)
    decreases es
  {
    if es == [] {
      assert [] + fs == fs;
    } else {
      RunConcat(env, Apply(env, s, es[0]), es[1..], fs);
      assert (es + fs)[1..] == es[1..] + fs;
    }
  }

  /** Crypto-shredding is final: once a sealed value's version is gone, every
      continuation of the run reports it gone. */
  lemma UnreadableForever(env: Env, es: seq<Event>, fs: seq<Event>, x: Sealed)
    requires env.Valid() && ValidRun(env, es) && ValidRun(env, fs)
    requires var s := Run(env, START, es); x in s.sealed && x.Key() !in s.wrappings
    ensures ValidRun(env, es + fs)
    ensures ReadBack(env, Run(env, START, es + fs).wrappings, x) == Err(NoSuchDekVersion(x.version))
  {
    StartInv(env);
    RunKeepsInv(env, START, es);
    SealedValuesOpen(env, es, x);
    GoneIsForever(env, Run(env, START, es), fs);
    RunConcat(env, START, es, fs);
    SealedValuesOpen(env, es + fs, x);
  }

  // ---- Which key a value was sealed with, and what can be shredded.

  /** `x` is what sealing in `s` leaves: under the version on top, with the key in
      that version's row, by the default cipher, bound to its record. */
  ghost predicate SealedIn(env: Env, s: World, e: Event, x: Sealed)
    requires env.Valid()
  {
    && e.SealValue? && ValidEvent(env, e) && x.controller == e.c && x.recordKind == e.k && x.plaintext == e.plaintext && x.aad == e.aad
    && IsTop(s.wrappings, x.controller, x.recordKind, x.version)
    && var dek := DekAtVersion(env.master, s.wrappings, x.controller, x.recordKind, x.version);
       dek.Ok? && Seal(env.ciphers[env.defaultAlgoId], dek.value, x.version, x.plaintext, x.aad, e.nonce) == Ok(x.envelope)
  }

  lemma SealStep(env: Env, s: World, e: Event, x: Sealed)
    requires env.Valid() && ValidEvent(env, e) && Inv(env, s) && x in Apply(env, s, e).sealed && x !in s.sealed
    ensures SealedIn(env, s, e, x)
  {
    if e.SealValue? { ActiveIff(env.master, s.wrappings, e.c, e.k); }
  }

  /** A value is added exactly when the pair has a key that its row gives back and
      the cipher seals with it. */
  lemma SealsIff(env: Env, s: World, e: Event)
    requires env.Valid() && ValidEvent(env, e) && Inv(env, s) && e.SealValue?
    ensures var s' := Apply(env, s, e);
            if exists x :: SealedIn(env, s, e, x) then |s'.sealed| == |s.sealed| + 1 && SealedIn(env, s, e, s'.sealed[|s.sealed|])
            else s' == s
  {
    ActiveIff(env.master, s.wrappings, e.c, e.k);
    var s' := Apply(env, s, e);
    if |s'.sealed| == |s.sealed| + 1 { assert SealedIn(env, s, e, s'.sealed[|s.sealed|]); }
  }

  /** Every value there is was sealed under the version that was on top at that
      moment: the last one generated or rotated to. */
  lemma {:induction false} SealedUnderTop(env: Env, s: World, es: seq<Event>, x: Sealed) returns (n: nat)
    requires env.Valid() && ValidRun(env, es) && Inv(env, s) && x in Run(env, s, es).sealed && x !in s.sealed
    ensures n < |es| && ValidRun(env, es[..n]) && SealedIn(env, Run(env, s, es[..n]), es[n], x)
    decreases es
  {
    var next := Apply(env, s, es[0]);
    ApplyKeepsInv(env, s, es[0]);
    if x in next.sealed {
      SealStep(env, s, es[0], x);
      n := 0;
      assert es[..0] == [];
    } else {
      var i := SealedUnderTop(env, next, es[1..], x);
      n := i + 1;
      assert es[..n][1..] == es[1..][..n - 1];
    }
  }

  /** After any run every version that is there can be shredded, except the one on
      top, which is refused; and from then on, whatever follows, it is reported
      gone. */
  lemma RetiredCanBeShredded(env: Env, es: seq<Event>, c: ControllerId, k: Bytes, v: u32, fs: seq<Event>)
    requires env.Valid() && ValidRun(env, es) && ValidRun(env, fs)
    requires WrappingKey(c, k, v) in Run(env, START, es).wrappings
    ensures var s := Run(env, START, es);
            if IsTop(s.wrappings, c, k, v) then ShredDek(s.wrappings, c, k, v) == (s.wrappings, Err(CannotShredActiveDek))
            else
              && ShredDek(s.wrappings, c, k, v).1 == Ok(())
              && DekAtVersion(env.master, Run(env, Apply(env, s, Shred(c, k, v)), fs).wrappings, c, k, v) == Err(NoSuchDekVersion(v))
  {
    StartInv(env);
    RunKeepsInv(env, START, es);
    var s := Run(env, START, es);
    ShredIff(s.wrappings, c, k, v);
    assert PairValid(s.wrappings, c, k) && Of(WrappingKey(c, k, v), c, k);
    if !IsTop(s.wrappings, c, k, v) {
      ApplyKeepsInv(env, s, Shred(c, k, v));
      GoneIsForever(env, Apply(env, s, Shred(c, k, v)), fs);
    }
  }
}
