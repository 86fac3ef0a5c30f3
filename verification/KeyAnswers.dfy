/** What each key operation answers and which rows it leaves, told from the rows
    of the table alone: every answer has its exact condition. */
module KeyAnswers {
  import opened Wrappers
  import opened Bytes
  import opened StoreErrors
  import opened MasterKek
  import opened KeyStore

  /** The pair has this row, with this state and these wrapped bytes. */
  predicate HasRow(w: Wrappings, c: ControllerId, k: Bytes, v: u32, state: WrappingState, wrapped: Bytes) {
    WrappingKey(c, k, v) in w && w[WrappingKey(c, k, v)] == WrappingRow(wrapped, state)
  }

  /** The two tables differ in rows of these versions of the pair only. */
  ghost predicate SameBut(w: Wrappings, w': Wrappings, c: ControllerId, k: Bytes, vs: set<u32>) {
    forall key: WrappingKey | !(Of(key, c, k) && key.version in vs) ::
      (key in w <==> key in w') && (key in w ==> w'[key] == w[key])
  }

  // ---- Which key a write gets.

  /** `active_dek_for` gives the pair's one active version, which is its greatest,
      and the key wrapped in that row; `NoActiveDek` is the answer of a pair
      without rows and of no other. */
  lemma ActiveIff(m: Master, w: Wrappings, c: ControllerId, k: Bytes)
    requires Valid(w)
    ensures forall dek: Bytes, v: u32 ::
              ActiveDekFor(m, w, c, k) == Ok((dek, v)) <==> IsTop(w, c, k, v) && DekAtVersion(m, w, c, k, v) == Ok(dek)
    ensures ActiveDekFor(m, w, c, k) == Err(NoActiveDek) <==> PairEmpty(w, c, k)
    ensures forall v: u32 :: IsTop(w, c, k, v) && DekAtVersion(m, w, c, k, v).Err? ==>
              ActiveDekFor(m, w, c, k) == Err(DekAtVersion(m, w, c, k, v).error)
  {
    NextIsActivePlusOne(w, c, k);
  }

  /** After a generate or a rotate, a write gets the key that was just wrapped,
      under the version that was just answered; a read at that version gets it
      too. */
  lemma ActiveIsNewest(m: Master, w: Wrappings, c: ControllerId, k: Bytes, v: u32, dek: Bytes, nonce: Bytes)
    requires m.Valid() && Valid(w) && |dek| == DEK_LEN && |nonce| == m.cipher.nonceSize
    requires m.Wrap(c, k, v, dek, nonce).Ok? && IsTop(w, c, k, v) && HasRow(w, c, k, v, Active, m.Wrap(c, k, v, dek, nonce).value)
    ensures ActiveDekFor(m, w, c, k) == Ok((dek, v)) && DekAtVersion(m, w, c, k, v) == Ok(dek)
  {
    m.UnwrapWrap(c, k, v, dek, nonce);
    ActiveIff(m, w, c, k);
  }

  // ---- When each operation succeeds.

  /** A generate succeeds exactly on a pair without rows whose key can be wrapped,
      answers 1, and adds just that row. */
  lemma GenerateAnswers(m: Master, w: Wrappings, c: ControllerId, k: Bytes, dek: Bytes, nonce: Bytes)
    requires m.Valid() && Valid(w) && |dek| == DEK_LEN && |nonce| == m.cipher.nonceSize
    ensures var (w', r) := GenerateDek(m, w, c, k, dek, nonce);
            var wrapped := m.Wrap(c, k, 1, dek, nonce);
            && (r == Err(AlreadyActiveDek) <==> !PairEmpty(w, c, k))
            && (PairEmpty(w, c, k) && wrapped.Err? ==> r == Err(wrapped.error))
            && (r == Ok(1) <==> PairEmpty(w, c, k) && wrapped.Ok?) && (r.Ok? ==> r.value == 1)
            && (r.Ok? ==> HasRow(w', c, k, 1, Active, wrapped.value) && SameBut(w, w', c, k, {1}))
            && (r.Ok? ==> ActiveDekFor(m, w', c, k) == Ok((dek, 1)) && DekAtVersion(m, w', c, k, 1) == Ok(dek))
            && (r.Err? ==> w' == w)
  {
    NextIsActivePlusOne(w, c, k);
    GenerateKeepsValid(m, w, c, k, dek, nonce);
    var (w', r) := GenerateDek(m, w, c, k, dek, nonce);
    if r.Ok? { ActiveIsNewest(m, w', c, k, 1, dek, nonce); }
  }

  /** A rotate is told `NoActiveDek` exactly on a pair without rows. On any other,
      with `t` on top, it succeeds exactly if `t + 1` is a `u32` and its key can be
      wrapped: it answers both versions, retires `t` with its key as it was, adds
      its successor, and touches no other row. */
  lemma RotateAnswers(m: Master, w: Wrappings, c: ControllerId, k: Bytes, t: u32, dek: Bytes, nonce: Bytes)
    requires m.Valid() && Valid(w) && |dek| == DEK_LEN && |nonce| == m.cipher.nonceSize
    ensures RotateDek(m, w, c, k, dek, nonce).1 == Err(NoActiveDek) <==> PairEmpty(w, c, k)
    ensures RotateDek(m, w, c, k, dek, nonce).1.Err? ==> RotateDek(m, w, c, k, dek, nonce).0 == w
    ensures IsTop(w, c, k, t) ==>
              var (w', r) := RotateDek(m, w, c, k, dek, nonce);
              if t + 1 == 0x1_0000_0000 then r == Err(VersionOverflowPanic)
              else
                var wrapped := m.Wrap(c, k, t + 1, dek, nonce);
                if wrapped.Err? then r == Err(wrapped.error)
                else
                  && r == Ok((t + 1, t))
                  && HasRow(w', c, k, t, Retired, w[WrappingKey(c, k, t)].wrapped)
                  && HasRow(w', c, k, t + 1, Active, wrapped.value) && SameBut(w, w', c, k, {t, t + 1})
                  && ActiveDekFor(m, w', c, k) == Ok((dek, t + 1)) && DekAtVersion(m, w', c, k, t + 1) == Ok(dek)
  {
    NextIsActivePlusOne(w, c, k);
    RotateKeepsValid(m, w, c, k, dek, nonce);
    var (w', r) := RotateDek(m, w, c, k, dek, nonce);
    if IsTop(w, c, k, t) {
      assert ActiveVersion(w, c, k) == Some(t);
      if r.Ok? { RotatedRows(m, w, w', c, k, t, dek, nonce); }
    }
  }

  /** From `w` to `w'` the pair has gone from one version on top to its successor,
      which is the one that writes now get, with this key. */
  ghost predicate HasRotated(m: Master, w: Wrappings, w': Wrappings, r: Result<(u32, u32), StoreError>, c: ControllerId, k: Bytes, dek: Bytes) {
    && (r == Err(NoActiveDek) <==> PairEmpty(w, c, k))
    && (r.Ok? ==> && IsTop(w, c, k, r.value.1) && r.value.0 == r.value.1 + 1
                  && SameBut(w, w', c, k, {r.value.0, r.value.1}) && ActiveDekFor(m, w', c, k) == Ok((dek, r.value.0)))
  }

  lemma RotateMeans(m: Master, w: Wrappings, c: ControllerId, k: Bytes, dek: Bytes, nonce: Bytes)
    requires m.Valid() && Valid(w) && |dek| == DEK_LEN && |nonce| == m.cipher.nonceSize
    ensures var (w', r) := RotateDek(m, w, c, k, dek, nonce); Valid(w') && HasRotated(m, w, w', r, c, k, dek)
  {
    RotateKeepsValid(m, w, c, k, dek, nonce);
    if !PairEmpty(w, c, k) {
      NextIsActivePlusOne(w, c, k);
      RotateAnswers(m, w, c, k, ActiveVersion(w, c, k).value, dek, nonce);
    } else {
      RotateAnswers(m, w, c, k, 0, dek, nonce);
    }
  }

  lemma RotatedRows(m: Master, w: Wrappings, w': Wrappings, c: ControllerId, k: Bytes, t: u32, dek: Bytes, nonce: Bytes)
    requires m.Valid() && Valid(w') && |dek| == DEK_LEN && |nonce| == m.cipher.nonceSize && t + 1 < TWO_32
    requires WrappingKey(c, k, t) in w && m.Wrap(c, k, t + 1, dek, nonce).Ok? && IsTop(w', c, k, t + 1)
    requires w' == Replace(w, c, k, t, t + 1, m.Wrap(c, k, t + 1, dek, nonce).value)
    ensures HasRow(w', c, k, t, Retired, w[WrappingKey(c, k, t)].wrapped)
    ensures HasRow(w', c, k, t + 1, Active, m.Wrap(c, k, t + 1, dek, nonce).value) && SameBut(w, w', c, k, {t, t + 1})
    ensures ActiveDekFor(m, w', c, k) == Ok((dek, t + 1)) && DekAtVersion(m, w', c, k, t + 1) == Ok(dek)
  {
    ActiveIsNewest(m, w', c, k, t + 1, dek, nonce);
  }

  /** A shred succeeds exactly on a retired row, is refused exactly on the active
      one, and knows no other; it takes that row away and nothing else. */
  lemma ShredIff(w: Wrappings, c: ControllerId, k: Bytes, v: u32)
    ensures var (w', r) := ShredDek(w, c, k, v);
            var there := WrappingKey(c, k, v) in w;
            && (r == Ok(()) <==> there && w[WrappingKey(c, k, v)].state == Retired)
            && (r == Err(CannotShredActiveDek) <==> IsActive(w, c, k, v))
            && (r == Err(NoSuchDekVersion(v)) <==> !there)
            && (r.Ok? ==> WrappingKey(c, k, v) !in w' && SameBut(w, w', c, k, {v}))
            && (r.Err? ==> w' == w)
  {
  }

  /** A read at a version gives the key wrapped in its row, whatever the state;
      without the row the answer is `NoSuchDekVersion`. */
  lemma DekAtVersionIff(m: Master, w: Wrappings, c: ControllerId, k: Bytes, v: u32)
    requires m.Valid()
    ensures forall dek: Bytes ::
              DekAtVersion(m, w, c, k, v) == Ok(dek) <==>
                && WrappingKey(c, k, v) in w && |dek| == 32
                && exists nonce: Bytes :: |nonce| == 12 && m.Wrap(c, k, v, dek, nonce) == Ok(w[WrappingKey(c, k, v)].wrapped)
    ensures DekAtVersion(m, w, c, k, v) == Err(NoSuchDekVersion(v)) <==> WrappingKey(c, k, v) !in w
  {
    if WrappingKey(c, k, v) in w {
      forall dek: Bytes ensures m.Unwrap(c, k, v, w[WrappingKey(c, k, v)].wrapped) == Ok(dek) <==>
          |dek| == 32 && exists nonce: Bytes :: |nonce| == 12 && m.Wrap(c, k, v, dek, nonce) == Ok(w[WrappingKey(c, k, v)].wrapped)
      {
        m.UnwrapIff(c, k, v, dek, w[WrappingKey(c, k, v)].wrapped);
      }
    }
  }
}
