/** "A blank field keeps the old secret": the stored backend over whole runs. */
module SecretHistory {
  import opened Reconcile
  import opened Store
  import opened SyncFrames
  import opened Wrappers

  /** Decrypting undoes encrypting, and no ciphertext is empty. */
  ghost predicate Sound(c: Cipher) {
    forall p: string, n: nat :: c.unseal(c.seal(p, n)) == Some(p) && c.seal(p, n) != ""
  }

  function WithSecret(b: Backend, secret: string): Backend {
    match b
    case Mikrotik(_, _, _, _) => b.(password := secret)
    case Node(_, _) => b.(key := secret)
    case _ => b
  }

  /** All accepted backend settings of each interface, in plaintext, oldest first. */
  type Supplied = map<Id, seq<Backend>>

  function Noted(db: Db, op: Op, h: Supplied): Supplied {
    match op
    case CreateInterface(i, fields, _) => h[i := [fields.backend]]
    case UpdateInterface(i, change, _) => if change.backend.Some? && i in h
        then h[i := h[i] + [change.backend.value]] else h
    case DeleteInterface(i) => h - {i}
    case _ => h
  }

  function SuppliedIn(env: Env, events: seq<Event>): Supplied {
    if events == [] then map[]
    else
      var init, last := events[..|events| - 1], events[|events| - 1];
      var db := Run(env, INITIAL, init).db;
      if Mutate(env, db, last.op).Ok? then Noted(db, last.op, SuppliedIn(env, init)) else SuppliedIn(env, init)
  }

  /** The last secret that was not blank; empty when all were. */
  function LastNonBlank(bs: seq<Backend>): string {
    if bs == [] then ""
    else if SecretOf(bs[|bs| - 1]) != "" then SecretOf(bs[|bs| - 1])
    else LastNonBlank(bs[..|bs| - 1])
  }

  /**
   One decryption of what is stored gives the last settings with the last non-blank secret; a
   secret is stored sealed, never as supplied; the kind never changed.
   */
  ghost predicate Holds(c: Cipher, stored: Backend, bs: seq<Backend>) {
    && bs != []
    && (forall k :: 0 <= k < |bs| ==> KindOf(bs[k]) == KindOf(stored))
    && Decrypted(c, stored) == Some(WithSecret(bs[|bs| - 1], LastNonBlank(bs)))
    && (SecretOf(stored) == "" || exists nonce :: SecretOf(stored) == c.seal(LastNonBlank(bs), nonce))
  }

  ghost predicate SecretsHold(c: Cipher, db: Db, h: Supplied) {
    forall i :: i in db.interfaces ==> i in h && Holds(c, db.interfaces[i].backend, h[i])
  }

  lemma EncryptionUndone(c: Cipher, b: Backend, nonce: nat)
    requires Sound(c)
    ensures Decrypted(c, Encrypted(c, b, nonce)) == Some(b)
    ensures KindOf(Encrypted(c, b, nonce)) == KindOf(b)
    ensures SecretOf(Encrypted(c, b, nonce)) == if SecretOf(b) == "" then "" else c.seal(SecretOf(b), nonce)
  {
  }

  lemma CreationHolds(c: Cipher, b: Backend, nonce: nat)
    requires Sound(c)
    ensures Holds(c, Encrypted(c, b, nonce), [b])
  {
    EncryptionUndone(c, b, nonce);
    assert [b][..0] == [];
  }

  lemma UpdateHolds(c: Cipher, stored: Backend, bs: seq<Backend>, b: Backend, nonce: nat)
    requires Sound(c) && Holds(c, stored, bs) && KindOf(b) == KindOf(stored)
    ensures Holds(c, KeepSecretIfBlank(Encrypted(c, b, nonce), stored), bs + [b])
  {
    EncryptionUndone(c, b, nonce);
    var all := bs + [b];
    assert all[..|all| - 1] == bs;
    assert KindOf(bs[|bs| - 1]) == KindOf(stored);
  }

  lemma UpdateWriteHolds(env: Env, db: Db, op: Op, h: Supplied)
    requires Sound(env.cipher) && SecretsHold(env.cipher, db, h) && Mutate(env, db, op).Ok? && op.UpdateInterface?
    ensures SecretsHold(env.cipher, Mutate(env, db, op).value, Noted(db, op, h))
  {
    if op.change.backend.Some? {
      UpdateHolds(env.cipher, db.interfaces[op.id].backend, h[op.id], op.change.backend.value, op.nonce);
    }
  }

  lemma OtherWritesHold(env: Env, db: Db, op: Op, h: Supplied)
    requires SecretsHold(env.cipher, db, h) && Mutate(env, db, op).Ok? && !op.CreateInterface? && !op.UpdateInterface?
    ensures SecretsHold(env.cipher, Mutate(env, db, op).value, Noted(db, op, h))
  {
    assert Mutate(env, db, op).value.interfaces == if op.DeleteInterface? then db.interfaces - {op.id}
        else db.interfaces;
  }

  lemma WriteHolds(env: Env, db: Db, op: Op, h: Supplied)
    requires Sound(env.cipher) && SecretsHold(env.cipher, db, h) && Mutate(env, db, op).Ok?
    ensures SecretsHold(env.cipher, Mutate(env, db, op).value, Noted(db, op, h))
  {
    if op.CreateInterface? {
      CreationHolds(env.cipher, op.fields.backend, op.nonce);
    } else if op.UpdateInterface? {
      UpdateWriteHolds(env, db, op, h);
    } else {
      OtherWritesHold(env, db, op, h);
    }
  }

  /**
   In every state of every run: decrypting an interface's stored backend once succeeds
   and gives the settings last supplied with the last non-blank secret supplied.
   */
  lemma {:induction false} SecretsSurviveRuns(env: Env, events: seq<Event>)
    requires Sound(env.cipher)
    ensures SecretsHold(env.cipher, Run(env, INITIAL, events).db, SuppliedIn(env, events))
  {
    if events != [] {
      var init, last := events[..|events| - 1], events[|events| - 1];
      SecretsSurviveRuns(env, init);
      var s := Run(env, INITIAL, init);
      StepErrors(env, s, last.op, last.weather);
      if Mutate(env, s.db, last.op).Ok? {
        WriteHolds(env, s.db, last.op, SuppliedIn(env, init));
      }
    }
  }
}
