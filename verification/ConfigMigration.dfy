/**
 * Encrypting the stored configuration, and rotating its credentials, in place: a run may stop after any access to
 * the store and is started again later; a marker object says whether the last run got to its end.
 */
module ConfigMigration {
  import opened Bytes

  /** The password made of a credential; the model only compares them. */
  type Key = nat

  datatype Decrypted = Plain(data: seq<byte>) | Malicious | Failed

  /**
   * `madmin.EncryptData` (with its randomness as an argument), `madmin.DecryptData` and `utf8.Valid`. Assumed: data
   * decrypt under their key to what was encrypted; a wrong key is reported as malicious data; and valid UTF-8 is
   * neither produced by encryption nor accepted by decryption.
   */
  datatype Crypto = Crypto(enc: (Key, nat, seq<byte>) -> seq<byte>, dec: (Key, seq<byte>) -> Decrypted, utf8: seq<byte> -> bool) {
    ghost predicate Valid() {
      && utf8([])
      && (forall k, n, d :: dec(k, enc(k, n, d)) == Plain(d) && !utf8(enc(k, n, d)))
      && (forall k, k', n, d :: k != k' ==> dec(k', enc(k, n, d)) == Malicious)
      && (forall k, b :: utf8(b) ==> !dec(k, b).Plain?)
    }

    ghost predicate Under(k: Key, b: seq<byte>, data: seq<byte>) { exists n :: b == enc(k, n, data) }
  }

  // ---- decryptData ----

  /** The first key that does not report malicious data decides. */
  function TryKeys(c: Crypto, edata: seq<byte>, keys: seq<Key>): Decrypted {
    if keys == [] then Plain([])
    else if |keys| > 1 && c.dec(keys[0], edata) == Malicious then TryKeys(c, edata, keys[1..])
    else c.dec(keys[0], edata)
  }

  method DecryptData(c: Crypto, edata: seq<byte>, keys: seq<Key>) returns (r: Decrypted)
    ensures r == TryKeys(c, edata, keys)
  {
    r := Plain([]);
    var i := 0;
    while i < |keys|
      invariant i <= |keys| && (i > 0 ==> r == Malicious) && (i == 0 ==> r == Plain([]))
      invariant if i < |keys| then TryKeys(c, edata, keys) == TryKeys(c, edata, keys[i..]) else TryKeys(c, edata, keys) == r
    {
      assert keys[i..][1..] == keys[i + 1..];
      r := c.dec(keys[i], edata);
      if r != Malicious {
        return;
      }
      i := i + 1;
    }
  }

  /** What is encrypted under one of the keys is decrypted, under any other it is reported as malicious. */
  lemma {:induction false} TryKeysFinds(c: Crypto, k: Key, b: seq<byte>, data: seq<byte>, keys: seq<Key>)
    requires c.Valid() && c.Under(k, b, data) && keys != []
    ensures TryKeys(c, b, keys) == if k in keys then Plain(data) else Malicious
  {
    var n :| b == c.enc(k, n, data);
    assert c.dec(keys[0], c.enc(k, n, data)) == if keys[0] == k then Plain(data) else Malicious;
    if keys[0] != k && |keys| > 1 {
      TryKeysFinds(c, k, b, data, keys[1..]);
    }
  }

  lemma {:induction false} TryKeysRefuses(c: Crypto, b: seq<byte>, keys: seq<Key>)
    requires c.Valid() && c.utf8(b) && keys != []
    ensures !TryKeys(c, b, keys).Plain?
  {
    if |keys| > 1 {
      TryKeysRefuses(c, b, keys[1..]);
    }
  }

  // ---- one object ----

  datatype Error =
    | Nil
    /** A lost quorum or a disk not found: tried again. */
    | Transient
    | IoError | ConfigNotFound | InvalidRotatingCredentials | DecryptError | NeitherPlainNorEncrypted | MissingCredentials

  datatype Action = Keep | Rewrite(data: seq<byte>) | Stop(error: Error)

  /** What a run does with an object it has read; `previous` is set when credentials are rotated. */
  function ActionFor(c: Crypto, cdata: seq<byte>, previous: Option<Key>, active: Key): Action {
    if cdata == [] then Stop(ConfigNotFound) else
    var d := if previous.Some? then TryKeys(c, cdata, [previous.value, active]) else Plain(cdata);
    if d == Malicious then Stop(InvalidRotatingCredentials)
    else if d == Failed then Stop(DecryptError)
    else if c.utf8(d.data) then Rewrite(d.data)
    else if TryKeys(c, d.data, [active]).Plain? then Keep
    else Stop(NeitherPlainNorEncrypted)
  }

  /** Object b is its original plaintext, or encrypts it under one of the keys. */
  ghost predicate Intact(c: Crypto, b: seq<byte>, orig: seq<byte>, keys: set<Key>) {
    b == orig || exists k :: k in keys && c.Under(k, b, orig)
  }

  /** What a run with these credentials can migrate. */
  ghost predicate Migratable(c: Crypto, b: seq<byte>, orig: seq<byte>, previous: Option<Key>, active: Key) {
    || c.Under(active, b, orig)
    || (previous.Some? && c.Under(previous.value, b, orig))
    || (previous.None? && b == orig && orig != [])
  }

  /** The error for an object that cannot be migrated. */
  function Refusal(c: Crypto, b: seq<byte>, orig: seq<byte>, previous: Option<Key>, active: Key): Error {
    if b == [] then ConfigNotFound
    else if previous.None? then NeitherPlainNorEncrypted
    else if b != orig || (c.dec(previous.value, b) == c.dec(active, b) == Malicious) then InvalidRotatingCredentials
    else DecryptError
  }

  predicate StoreError(err: Error) { err == Transient || err == IoError }

  lemma UnderOnce(c: Crypto, k: Key, k': Key, b: seq<byte>, orig: seq<byte>)
    requires c.Valid() && c.Under(k, b, orig)
    ensures c.Under(k', b, orig) ==> k == k'
    ensures !c.utf8(b) && b != []
  {
    var n :| b == c.enc(k, n, orig);
    if c.Under(k', b, orig) {
      var n' :| b == c.enc(k', n', orig);
      assert c.dec(k', c.enc(k', n', orig)) == Plain(orig);
    }
  }

  /** The action rewrites the original plaintext or keeps an object already done, and stops only at other objects. */
  lemma ActionIsRight(c: Crypto, b: seq<byte>, orig: seq<byte>, keys: set<Key>, previous: Option<Key>, active: Key)
    requires c.Valid() && c.utf8(orig) && Intact(c, b, orig, keys)
    ensures var action := ActionFor(c, b, previous, active);
            && (action.Stop? <==> !Migratable(c, b, orig, previous, active))
            && (action.Rewrite? ==> action.data == orig)
            && (action.Keep? ==> c.Under(active, b, orig))
            && (action.Stop? ==> action.error == Refusal(c, b, orig, previous, active))
  {
    var tried := if previous.Some? then [previous.value, active] else [active];
    if b == orig {
      if c.Under(active, b, orig) { UnderOnce(c, active, active, b, orig); }
      if previous.Some? && c.Under(previous.value, b, orig) { UnderOnce(c, previous.value, active, b, orig); }
      TryKeysRefuses(c, b, tried);
    } else {
      var k :| k in keys && c.Under(k, b, orig);
      UnderOnce(c, k, active, b, orig);
      if previous.Some? { UnderOnce(c, k, previous.value, b, orig); }
      TryKeysFinds(c, k, b, orig, tried);
    }
  }

  // ---- the store ----

  datatype Marker = Absent | Incomplete | Complete | Unknown

  /** How an access ends; a write that is reported to have failed may have taken effect all the same. */
  datatype Outcome = Success | Retryable(applied: bool) | Fatal(applied: bool)

  const MAX_OBJECT_LIST := 10000

  /** The objects under the config prefix, in the order of their listing. */
  class ConfigStore {
    const crypto: Crypto
    var objects: seq<seq<byte>>
    var marker: Marker
    /** How the next accesses end; Fatal also stands for the end of the process. Then every access succeeds. */
    var schedule: seq<Outcome>
    /** Source of randomness. */
    var entropy: nat
    /** The configuration itself. */
    ghost const orig: seq<seq<byte>>
    /** The key of the last completed migration. */
    ghost var sealedBy: Key

    ghost predicate Valid()
      reads this`objects
    {
      && crypto.Valid() && |objects| == |orig|
      && forall i :: 0 <= i < |orig| ==> crypto.utf8(orig[i])
    }

    /** No object is lost as long as these keys are known. */
    ghost predicate AllIntact(keys: set<Key>)
      reads this`objects
    {
      Valid() && forall i :: 0 <= i < |orig| ==> Intact(crypto, objects[i], orig[i], keys)
    }

    /** The first n objects are encrypted under k. */
    ghost predicate Sealed(n: nat, k: Key)
      requires n <= |objects| == |orig|
      reads this`objects
    {
      forall i :: 0 <= i < n ==> crypto.Under(k, objects[i], orig[i])
    }

    ghost predicate AllMigratable(from: nat, to: nat, previous: Option<Key>, active: Key)
      requires from <= to <= |objects| == |orig|
      reads this`objects
    {
      forall i :: from <= i < to ==> Migratable(crypto, objects[i], orig[i], previous, active)
    }

    /** No configuration is lost, and under a complete marker all of it is encrypted under one key. */
    ghost predicate Safe(keys: set<Key>)
      reads this`objects, this`marker, this`sealedBy
    {
      && AllIntact(keys)
      && (marker == Complete ==> sealedBy in keys && Sealed(|orig|, sealedBy))
    }

    constructor (crypto: Crypto, orig: seq<seq<byte>>)
      requires crypto.Valid() && forall i :: 0 <= i < |orig| ==> crypto.utf8(orig[i])
      ensures Safe({}) && objects == this.orig == orig && this.crypto == crypto && marker == Absent
    {
      this.crypto, this.orig, objects, marker := crypto, orig, orig, Absent;
      schedule, entropy, sealedBy := [], 0, 0;
    }

    /** One access to the store. */
    method Access() returns (err: Error, applied: bool)
      modifies this`schedule
      ensures old(schedule) == [] ==> schedule == [] && err == Nil && applied
      ensures old(schedule) != [] ==>
                && schedule == old(schedule)[1..]
                && match old(schedule)[0]
                   case Success => err == Nil && applied
                   case Retryable(a) => err == Transient && applied == a
                   case Fatal(a) => err == IoError && applied == a
    {
      if schedule == [] {
        return Nil, true;
      }
      match schedule[0] {
        case Success => err, applied := Nil, true;
        case Retryable(a) => err, applied := Transient, a;
        case Fatal(a) => err, applied := IoError, a;
      }
      schedule := schedule[1..];
    }

    /** The error is the one for object i, which cannot be migrated. */
    ghost predicate Refuses(err: Error, objs: seq<seq<byte>>, i: nat, previous: Option<Key>, active: Key) {
      && i < |objs| == |orig| && !Migratable(crypto, objs[i], orig[i], previous, active)
      && err == Refusal(crypto, objs[i], orig[i], previous, active)
    }

    /** The error comes from the store or is the one for an object that cannot be migrated. */
    ghost predicate Explained(err: Error, objs: seq<seq<byte>>, previous: Option<Key>, active: Key) {
      err == Nil || StoreError(err) || exists i: nat :: Refuses(err, objs, i, previous, active)
    }

    /** Object i ends up encrypted under the active key, or is left alone; it may be encrypted although that is an error. */
    method MigrateObject(i: nat, previous: Option<Key>, active: Key, ghost keys: set<Key>) returns (err: Error)
      requires AllIntact(keys) && i < |objects|
      modifies this`objects, this`schedule, this`entropy
      ensures |objects| == |old(objects)| && objects == old(objects)[i := objects[i]]
      ensures objects == old(objects) || crypto.Under(active, objects[i], orig[i])
      ensures err == Nil ==> crypto.Under(active, objects[i], orig[i])
      ensures old(schedule) == [] ==> schedule == []
      ensures |schedule| <= |old(schedule)| && (err == Transient ==> |schedule| < |old(schedule)|)
      ensures old(schedule) == [] ==> (err == Nil <==> Migratable(crypto, old(objects[i]), orig[i], previous, active))
      ensures err == Nil ==> Migratable(crypto, old(objects[i]), orig[i], previous, active)
      ensures err == Nil || StoreError(err) || Refuses(err, old(objects), i, previous, active)
      ensures StoreError(err) ==> old(schedule) != []
    {
      ActionIsRight(crypto, objects[i], orig[i], keys, previous, active);
      var applied;
      err, applied := Access();
      if err != Nil {
        return;
      }
      var cdata := objects[i];
      if cdata == [] {
        return ConfigNotFound;
      }
      var data := cdata;
      if previous.Some? {
        var d := DecryptData(crypto, cdata, [previous.value, active]);
        if d == Malicious {
          return InvalidRotatingCredentials;
        }
        if d == Failed {
          return DecryptError;
        }
        data := d.data;
      }
      if !crypto.utf8(data) {
        var d := DecryptData(crypto, data, [active]);
        if d.Plain? {
          return Nil;
        }
        return NeitherPlainNorEncrypted;
      }
      var cencdata := crypto.enc(active, entropy, data);
      entropy := entropy + 1;
      err, applied := Access();
      if applied {
        objects := objects[i := cencdata];
      }
    }

    /** Every object is as it was or has been encrypted under the active key. */
    ghost predicate Advanced(before: seq<seq<byte>>, active: Key)
      requires |objects| == |orig| == |before|
      reads this`objects
    {
      forall i :: 0 <= i < |orig| ==> objects[i] == before[i] || crypto.Under(active, objects[i], orig[i])
    }

    lemma AdvancedIsIntact(before: seq<seq<byte>>, active: Key, keys: set<Key>)
      requires Valid() && |before| == |orig| && Advanced(before, active) && active in keys
      requires forall i :: 0 <= i < |orig| ==> Intact(crypto, before[i], orig[i], keys)
      ensures AllIntact(keys)
    {
      forall i | 0 <= i < |orig| ensures Intact(crypto, objects[i], orig[i], keys) {
        if objects[i] != before[i] {
          assert crypto.Under(active, objects[i], orig[i]);
        }
      }
    }

    /** An object that cannot be migrated is as it was. */
    lemma StillRefuses(err: Error, before: seq<seq<byte>>, now: seq<seq<byte>>, i: nat, previous: Option<Key>, active: Key)
      requires |before| == |now| == |orig|
      requires forall j :: 0 <= j < |orig| ==> now[j] == before[j] || crypto.Under(active, now[j], orig[j])
      ensures Refuses(err, now, i, previous, active) ==> Refuses(err, before, i, previous, active)
    {
    }

    lemma StillExplained(err: Error, before: seq<seq<byte>>, now: seq<seq<byte>>, previous: Option<Key>, active: Key)
      requires |before| == |now| == |orig| && Explained(err, now, previous, active)
      requires forall j :: 0 <= j < |orig| ==> now[j] == before[j] || crypto.Under(active, now[j], orig[j])
      ensures Explained(err, before, previous, active)
    {
      if i: nat :| Refuses(err, now, i, previous, active) {
        StillRefuses(err, before, now, i, previous, active);
      }
    }

    /** The objects of one page of the listing. */
    method MigratePage(from: nat, to: nat, previous: Option<Key>, active: Key, ghost keys: set<Key>) returns (err: Error)
      requires AllIntact(keys) && from <= to <= |objects| && active in keys && Sealed(from, active)
      modifies this`objects, this`schedule, this`entropy
      ensures AllIntact(keys) && Advanced(old(objects), active)
      ensures err == Nil ==> Sealed(to, active)
      ensures forall i :: to <= i < |objects| ==> objects[i] == old(objects)[i]
      ensures old(schedule) == [] ==> schedule == [] && (err == Nil <==> old(AllMigratable(from, to, previous, active)))
      ensures |schedule| <= |old(schedule)| && (err == Transient ==> |schedule| < |old(schedule)|)
      ensures Explained(err, old(objects), previous, active) && (StoreError(err) ==> old(schedule) != [])
    {
      ghost var before := objects;
      err := Nil;
      var i := from;
      while i < to
        invariant from <= i <= to <= |objects| == |before| && err == Nil && Valid()
        invariant AllIntact(keys) && Advanced(before, active) && Sealed(i, active)
        invariant forall j :: i <= j < |objects| ==> objects[j] == before[j]
        invariant |schedule| <= |old(schedule)| && (old(schedule) == [] ==> schedule == [])
        invariant forall j :: from <= j < i ==> Migratable(crypto, before[j], orig[j], previous, active)
      {
        ghost var start := objects;
        err := MigrateObject(i, previous, active, keys);
        AdvancedIsIntact(before, active, keys);
        if err != Nil {
          StillRefuses(err, before, start, i, previous, active);
          return;
        }
        i := i + 1;
      }
    }

    /** All pages; `marker` of the source is the position in the listing. */
    method MigrateAll(previous: Option<Key>, active: Key, ghost keys: set<Key>) returns (err: Error)
      requires AllIntact(keys) && active in keys
      modifies this`objects, this`schedule, this`entropy
      ensures AllIntact(keys) && Advanced(old(objects), active)
      ensures err == Nil ==> Sealed(|orig|, active)
      ensures old(schedule) == [] ==> schedule == [] && (err == Nil <==> old(AllMigratable(0, |orig|, previous, active)))
      ensures |schedule| <= |old(schedule)| && (err == Transient ==> |schedule| < |old(schedule)|)
      ensures Explained(err, old(objects), previous, active) && (StoreError(err) ==> old(schedule) != [])
    {
      ghost var before := objects;
      var at := 0;
      while true
        invariant at <= |objects| == |before| && Valid()
        invariant AllIntact(keys) && Advanced(before, active) && Sealed(at, active)
        invariant forall j :: at <= j < |objects| ==> objects[j] == before[j]
        invariant |schedule| <= |old(schedule)| && (old(schedule) == [] ==> schedule == [])
        invariant old(schedule) == [] ==> forall j :: 0 <= j < at ==> Migratable(crypto, before[j], orig[j], previous, active)
        decreases |objects| - at
      {
        var applied;
        err, applied := Access();
        if err != Nil {
          return;
        }
        var end := Min(at + MAX_OBJECT_LIST, |objects|);
        var isTruncated := end < |objects|;
        ghost var page := objects;
        err := MigratePage(at, end, previous, active, keys);
        assert forall j :: at <= j < end ==> page[j] == before[j];
        if err != Nil {
          StillExplained(err, before, page, previous, active);
          return;
        }
        at := end;
        if !isTruncated {
          break;
        }
      }
    }

    /** A backend already encrypted is left alone unless other credentials are asked for. */
    static predicate Skips(encrypted: bool, previous: Option<Key>, active: Key) {
      encrypted && (previous.None? || previous.value == active)
    }

    /**
     * `migrateConfigPrefixToEncrypted`. It keeps the store safe wherever it stops. It completes only with everything
     * encrypted under the active key, and without failures does so exactly if every object is migratable.
     */
    method Migrate(previous: Option<Key>, active: Key, encrypted: bool, ghost keys: set<Key>) returns (err: Error)
      requires Safe(keys) && active in keys
      modifies this
      ensures Safe(keys) && Advanced(old(objects), active)
      ensures |schedule| <= |old(schedule)| && (err == Transient ==> |schedule| < |old(schedule)|)
      ensures Explained(err, old(objects), previous, active) && (StoreError(err) ==> old(schedule) != [])
      ensures Skips(encrypted, previous, active) ==> err == Nil && unchanged(this)
      ensures !Skips(encrypted, previous, active) ==>
                && (err == Nil ==> marker == Complete && sealedBy == active)
                && (marker == Complete && sealedBy != active ==> unchanged(this`objects, this`marker, this`sealedBy))
                && (old(schedule) == [] ==>
                      schedule == [] && (err == Nil <==> old(AllMigratable(0, |orig|, previous, active))))
    {
      if encrypted {
        if previous.None? {
          return Nil;
        }
        if previous.value == active {
          return Nil;
        }
      }
      var applied;
      err, applied := Access();
      if applied {
        marker := Incomplete;
      }
      if err != Nil {
        return;
      }
      err := MigrateAll(previous, active, keys);
      if err != Nil {
        return;
      }
      err, applied := Access();
      if applied {
        marker := Complete;
        sealedBy := active;
      }
    }

    /** `checkBackendEncrypted`, asked again while the backend does not answer. */
    method CheckBackendEncrypted() returns (encrypted: bool, err: Error)
      modifies this`schedule
      ensures err == Nil || err == IoError
      ensures err == Nil ==> encrypted == (marker == Complete)
      ensures old(schedule) == [] ==> schedule == [] && err == Nil
    {
      err := Transient;
      encrypted := false;
      while err == Transient
        invariant err == Nil || err == IoError || err == Transient
        invariant err == Nil ==> encrypted == (marker == Complete)
        invariant old(schedule) == [] ==> schedule == [] && (err == Transient || err == Nil)
        decreases |schedule|, err == Transient
      {
        var applied;
        err, applied := Access();
        encrypted := err == Nil && marker == Complete;
      }
    }

    /**
     * `handleEncryptedConfigBackend` of a server, `active` being None if no valid credential is set: whatever happens
     * the store stays safe, and a server that goes on with encryption switched on has a fully encrypted backend.
     */
    method HandleEncryptedConfigBackend(configEncrypted: bool, active: Option<Key>, previous: Option<Key>, ghost keys: set<Key>)
      returns (err: Error)
      requires Safe(keys) && (active.Some? ==> active.value in keys)
      modifies this
      ensures Safe(keys)
      ensures active.Some? ==> Advanced(old(objects), active.value)
      ensures err == Nil && configEncrypted ==>
                && active.Some? && marker == Complete
                && (|| sealedBy == active.value
                    || (Skips(old(marker) == Complete, previous, active.value) && unchanged(this`objects, this`sealedBy)))
      ensures marker == Complete && !(active.Some? && sealedBy == active.value) ==> unchanged(this`objects, this`marker, this`sealedBy)
      ensures err == Nil && old(marker) == Complete ==> configEncrypted && active.Some?
      ensures !configEncrypted || active.None? ==> unchanged(this`objects, this`marker, this`sealedBy)
      ensures err == MissingCredentials ==> active.None? || !configEncrypted
      ensures err == Nil || err == IoError || err == MissingCredentials
              || (active.Some? && exists i: nat :: Refuses(err, old(objects), i, previous, active.value))
      ensures old(schedule) == [] ==>
                && schedule == [] && err != IoError
                && (!configEncrypted || active.None? ==>
                      err == if old(marker) == Complete || configEncrypted then MissingCredentials else Nil)
                && (configEncrypted && active.Some? ==>
                      (err == Nil <==>
                         || Skips(old(marker) == Complete, previous, active.value)
                         || old(AllMigratable(0, |orig|, previous, active.value))))
    {
      var encrypted;
      encrypted, err := CheckBackendEncrypted();
      if err != Nil {
        return;
      }
      if encrypted {
        if !configEncrypted || active.None? {
          return MissingCredentials;
        }
      } else {
        if !configEncrypted {
          return Nil;
        }
        if active.None? {
          return MissingCredentials;
        }
      }
      err := MigrateRetrying(previous, active.value, encrypted, keys);
    }

    /** The retry loop: `encrypted` is what was found before the first attempt. */
    method MigrateRetrying(previous: Option<Key>, active: Key, encrypted: bool, ghost keys: set<Key>) returns (err: Error)
      requires Safe(keys) && active in keys && (encrypted ==> marker == Complete)
      modifies this
      ensures Safe(keys) && Advanced(old(objects), active)
      ensures err == Nil ==>
                marker == Complete && (sealedBy == active || (Skips(encrypted, previous, active) && unchanged(this`objects, this`sealedBy)))
      ensures marker == Complete && sealedBy != active ==> unchanged(this`objects, this`marker, this`sealedBy)
      ensures err != Transient && Explained(err, old(objects), previous, active) && (err == IoError ==> old(schedule) != [])
      ensures old(schedule) == [] ==>
                schedule == [] && (err == Nil <==> Skips(encrypted, previous, active) || old(AllMigratable(0, |orig|, previous, active)))
    {
      ghost var before := objects;
      err := Transient;
      while err == Transient
        invariant Safe(keys) && |before| == |orig| && Advanced(before, active)
        invariant err == Nil ==>
                    && marker == Complete
                    && (|| sealedBy == active
                        || (Skips(encrypted, previous, active) && objects == before && sealedBy == old(sealedBy)))
        invariant err == Transient && Skips(encrypted, previous, active) ==>
                    objects == before && sealedBy == old(sealedBy) && marker == old(marker)
        invariant marker == Complete && sealedBy != active ==> objects == before && sealedBy == old(sealedBy) && marker == old(marker)
        invariant old(schedule) == [] ==>
                    schedule == [] && (err == Transient ==> objects == before)
                    && (err != Transient ==>
                          (err == Nil <==> Skips(encrypted, previous, active) || old(AllMigratable(0, |orig|, previous, active))))
        invariant Explained(err, before, previous, active) && (old(schedule) == [] ==> err != IoError)
        decreases |schedule|, err == Transient
      {
        ghost var start := objects;
        err := Migrate(previous, active, encrypted, keys);
        assert Advanced(start, active);
        StillExplained(err, before, start, previous, active);
      }
    }
  }

  // ---- sequences of runs ----

  /** One start of a server: its settings, and how the store behaves until it stops. */
  datatype Run = Run(configEncrypted: bool, active: Option<Key>, previous: Option<Key>, schedule: seq<Outcome>)

  /** What is stored, as a value. */
  datatype Contents = Contents(objects: seq<seq<byte>>, marker: Marker, sealedBy: Key)

  ghost function Stored(store: ConfigStore): Contents
    reads store
  {
    Contents(store.objects, store.marker, store.sealedBy)
  }

  ghost predicate AllFit(c: Crypto, orig: seq<seq<byte>>, s: Contents, previous: Option<Key>, active: Key) {
    |s.objects| == |orig| && forall i :: 0 <= i < |orig| ==> Migratable(c, s.objects[i], orig[i], previous, active)
  }

  /** Every object decrypts to the original under k. */
  ghost predicate AllDecrypt(c: Crypto, orig: seq<seq<byte>>, s: Contents, k: Key) {
    |s.objects| == |orig| && forall i :: 0 <= i < |orig| ==> c.dec(k, s.objects[i]) == Plain(orig[i])
  }

  /** What a run with encryption on and credentials set does. */
  ghost predicate Migrated(c: Crypto, orig: seq<seq<byte>>, r: Run, s: Contents, s': Contents, err: Error)
    requires r.active.Some?
  {
    var k, skips := r.active.value, ConfigStore.Skips(s.marker == Complete, r.previous, r.active.value);
    && |s.objects| == |s'.objects| == |orig|
    && (forall i :: 0 <= i < |orig| ==> s'.objects[i] == s.objects[i] || c.Under(k, s'.objects[i], orig[i]))
    && (err == Nil ==> s'.marker == Complete && (s'.sealedBy == k || (skips && s' == s)))
    && (s'.marker == Complete ==> if s'.sealedBy == k then AllDecrypt(c, orig, s', k) else s' == s)
    && (r.schedule == [] ==> (err == Nil <==> skips || AllFit(c, orig, s, r.previous, k)))
  }

  /** What a run does. */
  ghost predicate Handled(c: Crypto, orig: seq<seq<byte>>, r: Run, s: Contents, s': Contents, err: Error) {
    if r.configEncrypted && r.active.Some? then Migrated(c, orig, r, s, s', err)
    else
      && s' == s
      && (err == Nil ==> !r.configEncrypted && s.marker != Complete)
      && (r.schedule == [] ==> err == if s.marker == Complete || r.configEncrypted then MissingCredentials else Nil)
  }

  /** The contents before, between and after the runs, and how each ended. */
  ghost predicate AllHandled(c: Crypto, orig: seq<seq<byte>>, runs: seq<Run>, trace: seq<Contents>, errs: seq<Error>) {
    && |trace| == |runs| + 1 && |errs| == |runs|
    && forall i :: 0 <= i < |runs| ==> Handled(c, orig, runs[i], trace[i], trace[i + 1], errs[i])
  }

  lemma HandledOn(c: Crypto, orig: seq<seq<byte>>, runs: seq<Run>, trace: seq<Contents>, errs: seq<Error>, r: Run, s: Contents, err: Error)
    requires AllHandled(c, orig, runs, trace, errs) && Handled(c, orig, r, trace[|runs|], s, err)
    ensures AllHandled(c, orig, runs + [r], trace + [s], errs + [err])
  {
    var rs, t, es := runs + [r], trace + [s], errs + [err];
    forall i | 0 <= i < |rs| ensures Handled(c, orig, rs[i], t[i], t[i + 1], es[i]) {
      if i < |runs| { assert t[i] == trace[i] && t[i + 1] == trace[i + 1]; }
    }
  }

  /** One run. */
  method Start(store: ConfigStore, r: Run, ghost keys: set<Key>) returns (err: Error)
    requires store.Safe(keys) && (r.active.Some? ==> r.active.value in keys)
    modifies store
    ensures store.Safe(keys) && Handled(store.crypto, store.orig, r, old(Stored(store)), Stored(store), err)
  {
    store.schedule := r.schedule;
    err := store.HandleEncryptedConfigBackend(r.configEncrypted, r.active, r.previous, keys);
    if store.marker == Complete { SealedDecrypts(store, store.sealedBy); }
  }

  /**
   * Whatever sequence of runs works on the store, each with its own credentials and stopped wherever it may be: no
   * object is lost, and a complete marker means that everything decrypts under one key, the one it was completed with.
   */
  method AnyRuns(store: ConfigStore, runs: seq<Run>, ghost keys: set<Key>) returns (errs: seq<Error>, ghost trace: seq<Contents>)
    requires store.Safe(keys) && forall i :: 0 <= i < |runs| && runs[i].active.Some? ==> runs[i].active.value in keys
    modifies store
    ensures AllHandled(store.crypto, store.orig, runs, trace, errs) && trace[0] == old(Stored(store)) && trace[|runs|] == Stored(store)
    ensures store.Safe(keys)
    ensures store.marker == Complete ==> store.sealedBy in keys && AllDecrypt(store.crypto, store.orig, Stored(store), store.sealedBy)
  {
    errs, trace := [], [Stored(store)];
    var i := 0;
    while i < |runs|
      invariant i <= |runs| && store.Safe(keys)
      invariant AllHandled(store.crypto, store.orig, runs[..i], trace, errs) && trace[0] == old(Stored(store)) && trace[i] == Stored(store)
    {
      var err := Start(store, runs[i], keys);
      assert runs[..i + 1] == runs[..i] + [runs[i]];
      HandledOn(store.crypto, store.orig, runs[..i], trace, errs, runs[i], Stored(store), err);
      errs, trace := errs + [err], trace + [Stored(store)];
      i := i + 1;
    }
    assert runs[..i] == runs;
    if store.marker == Complete {
      SealedDecrypts(store, store.sealedBy);
    }
  }

  lemma SealedDecrypts(store: ConfigStore, k: Key)
    requires store.Valid() && store.Sealed(|store.orig|, k)
    ensures AllDecrypt(store.crypto, store.orig, Stored(store), k)
  {
    forall i | 0 <= i < |store.orig| ensures store.crypto.dec(k, store.objects[i]) == Plain(store.orig[i]) {
      assert store.crypto.Under(k, store.objects[i], store.orig[i]);
    }
  }

  /** The run is one of a migration to the active key. */
  predicate Attempts(r: Run, previous: Option<Key>, active: Key) {
    r.configEncrypted && r.active == Some(active) && r.previous == previous
  }

  /** The credentials fit what is stored, and nothing is taken for done that is not done under the active key. */
  ghost predicate Ready(c: Crypto, orig: seq<seq<byte>>, s: Contents, previous: Option<Key>, active: Key) {
    AllFit(c, orig, s, previous, active) && (ConfigStore.Skips(s.marker == Complete, previous, active) ==> s.sealedBy == active)
  }

  lemma {:induction false} StaysReady(c: Crypto, orig: seq<seq<byte>>, runs: seq<Run>, trace: seq<Contents>, errs: seq<Error>,
                                      previous: Option<Key>, active: Key, n: nat)
    requires AllHandled(c, orig, runs, trace, errs) && n <= |runs| && forall i :: 0 <= i < |runs| ==> Attempts(runs[i], previous, active)
    requires Ready(c, orig, trace[0], previous, active)
    ensures Ready(c, orig, trace[n], previous, active)
  {
    if n > 0 {
      StaysReady(c, orig, runs, trace, errs, previous, active, n - 1);
      assert Attempts(runs[n - 1], previous, active) && Handled(c, orig, runs[n - 1], trace[n - 1], trace[n], errs[n - 1]);
    }
  }

  /**
   * A migration can be started again: if its credentials fit the store at first, then after any number of runs with
   * these credentials that stopped anywhere, one run without failures succeeds and leaves a complete marker and
   * everything encrypted under the active key. Left out is the store that is complete under
   * another key than the active one while no rotation is asked for: it is never touched.
   */
  lemma RestartCompletes(c: Crypto, orig: seq<seq<byte>>, runs: seq<Run>, trace: seq<Contents>, errs: seq<Error>,
                         previous: Option<Key>, active: Key)
    requires AllHandled(c, orig, runs, trace, errs) && forall i :: 0 <= i < |runs| ==> Attempts(runs[i], previous, active)
    requires runs != [] && runs[|runs| - 1].schedule == [] && Ready(c, orig, trace[0], previous, active)
    ensures errs[|runs| - 1] == Nil && trace[|runs|].marker == Complete && AllDecrypt(c, orig, trace[|runs|], active)
  {
    var n := |runs| - 1;
    StaysReady(c, orig, runs, trace, errs, previous, active, n);
    assert Attempts(runs[n], previous, active) && Handled(c, orig, runs[n], trace[n], trace[n + 1], errs[n]);
  }

  // ---- there are ciphers of this kind ----

  function Ones(n: nat): (s: seq<byte>)
    ensures |s| == n && forall i :: 0 <= i < n ==> s[i] == 1
  {
    if n == 0 then [] else Ones(n - 1) + [1]
  }

  /** The key written in unary before the data, behind a byte that no UTF-8 text starts with. */
  function UnaryCrypto(): Crypto {
    Crypto((k: nat, n: nat, d: seq<byte>) => [255] + Ones(k) + [0] + d,
           (k: nat, b: seq<byte>) =>
             if b == [] || b[0] != 255 then Failed
             else if |b| >= k + 2 && b[1..k + 1] == Ones(k) && b[k + 1] == 0 then Plain(b[k + 2..])
             else Malicious,
           (b: seq<byte>) => b == [] || b[0] != 255)
  }

  lemma UnaryIsValid()
    ensures UnaryCrypto().Valid()
  {
    var c := UnaryCrypto();
    forall k: Key, n: nat, d ensures c.dec(k, c.enc(k, n, d)) == Plain(d) && !c.utf8(c.enc(k, n, d)) {
      var b := c.enc(k, n, d);
      assert b[1..k + 1] == Ones(k) && b[k + 2..] == d;
    }
    forall k: Key, k': Key, n: nat, d | k != k' ensures c.dec(k', c.enc(k, n, d)) == Malicious {
      var b := c.enc(k, n, d);
      if k < k' && |b| >= k' + 2 {
        assert b[1..k' + 1][k] == b[k + 1] == 0;
      } else if k' < k {
        assert b[k' + 1] == Ones(k)[k'];
      }
    }
  }
}
