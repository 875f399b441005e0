/** The vault that unlocks itself (src-tauri/src/vault/store.rs:92-307): creating it, unlocking it, and moving an old
    vault from the public legacy password to a secret of its own. AES-GCM and Argon2 are symbolic: what is sealed
    under a key and a nonce opens under exactly that key and nonce, and different passwords, salts or costs give
    different keys. */
module VaultStore {
  import opened Wrappers
  import opened Text

  type Salt = nat
  type Nonce = nat

  datatype KdfParams = KdfParams(mCost: nat, tCost: nat, pCost: nat)

  const DEFAULT_PARAMS := KdfParams(65536, 3, 4)

  datatype Key = Derived(password: string, salt: Salt, params: KdfParams)

  /** `Corrupt` stands for bytes no key authenticates. */
  datatype Ciphertext = Sealed(key: Key, nonce: Nonce, plaintext: string) | Corrupt

  datatype Error = Crypto | InvalidPassword | VaultNotInitialized | VaultAlreadyInitialized | Db

  /** Argon2's limits on its parameters, section 3.1 of RFC 9106. */
  predicate ParamsOk(p: KdfParams) {
    1 <= p.pCost < 0x100_0000 && 8 * p.pCost <= p.mCost < 0x1_0000_0000 && 1 <= p.tCost < 0x1_0000_0000
  }

  function DeriveKey(password: string, salt: Salt, params: KdfParams): Result<Key, Error> {
    if ParamsOk(params) then Ok(Derived(password, salt, params)) else Err(Crypto)
  }

  function Decrypt(key: Key, nonce: Nonce, c: Ciphertext): Result<string, Error> {
    if c.Sealed? && c.key == key && c.nonce == nonce then Ok(c.plaintext) else Err(Crypto)
  }

  /** A NOT NULL pair of columns, and a nullable one. */
  datatype Box = Box(nonce: Nonce, ciphertext: Ciphertext)
  datatype Columns = Columns(nonce: Option<Nonce>, ciphertext: Option<Ciphertext>)

  const NULLS := Columns(None, None)

  function OpenBox(key: Key, b: Box): Result<string, Error> { Decrypt(key, b.nonce, b.ciphertext) }

  predicate Filled(c: Columns) { c.nonce.Some? && c.ciphertext.Some? }

  function Open(key: Key, c: Columns): Result<string, Error> {
    if Filled(c) then Decrypt(key, c.nonce.value, c.ciphertext.value) else Err(Db)
  }

  datatype IdentityRow = IdentityRow(id: nat, password: Columns)
  datatype SshKeyRow = SshKeyRow(id: nat, privateKey: Box, passphrase: Columns)
  datatype Meta = Meta(salt: Salt, params: KdfParams, verifier: Box)

  /** The database file and, beside it, the file with the installation's secret. */
  datatype Disk = Disk(
    secretFile: Option<string>, meta: Option<Meta>, identities: seq<IdentityRow>, sshKeys: seq<SshKeyRow>)

  const VERIFIER_PLAINTEXT := "sshtool-vault-v1"
  const LEGACY_PUBLIC_PASSWORD := "CorrectHorseBattery1"

  // ---------------------------------------------------------------- unlocking

  function Unlock(meta: Option<Meta>, password: string): Result<Key, Error> {
    match meta
    case None => Err(VaultNotInitialized)
    case Some(m) =>
      match DeriveKey(password, m.salt, m.params)
      case Err(e) => Err(e)
      case Ok(key) => if OpenBox(key, m.verifier) == Ok(VERIFIER_PLAINTEXT) then Ok(key) else Err(InvalidPassword)
  }

  /** Unlocking succeeds exactly with the password under whose key the verifier is sealed, and gives that key; a vault
      whose costs are out of range fails for any password, and every other failure is the password's. */
  lemma UnlocksIff(meta: Option<Meta>, password: string)
    ensures meta.None? ==> Unlock(meta, password) == Err(VaultNotInitialized)
    ensures meta.Some? ==>
              var Meta(salt, params, verifier) := meta.value;
              var key := Derived(password, salt, params);
              && (Unlock(meta, password) == Ok(key)
                  <==> ParamsOk(params) && verifier.ciphertext == Sealed(key, verifier.nonce, "sshtool-vault-v1"))
              && (Unlock(meta, password).Ok? ==> Unlock(meta, password) == Ok(key))
              && (Unlock(meta, password).Err? ==>
                    Unlock(meta, password).error == if ParamsOk(params) then InvalidPassword else Crypto)
  {
  }

  /** At most one password unlocks a vault, and it always gives the same key. */
  lemma OnePasswordUnlocks(meta: Option<Meta>, p: string, q: string)
    requires Unlock(meta, p).Ok? && Unlock(meta, q).Ok?
    ensures p == q
  {
  }

  // ---------------------------------------------------------------- moving a row to another key

  /** The row's secret, if it has one, opens under the new key to what it was under the old; NULL stays NULL. */
  ghost predicate IdentityMoved(b: IdentityRow, a: IdentityRow, oldKey: Key, newKey: Key) {
    && a.id == b.id
    && if b.password.ciphertext.None? then a == b
       else Open(oldKey, b.password).Ok? && Open(newKey, a.password) == Open(oldKey, b.password)
  }

  /** A passphrase with only one of its columns filled cannot be opened by any key; it becomes NULL. */
  ghost predicate KeyMoved(b: SshKeyRow, a: SshKeyRow, oldKey: Key, newKey: Key) {
    && a.id == b.id
    && OpenBox(oldKey, b.privateKey).Ok? && OpenBox(newKey, a.privateKey) == OpenBox(oldKey, b.privateKey)
    && if !Filled(b.passphrase) then a.passphrase == NULLS
       else Open(oldKey, b.passphrase).Ok? && Open(newKey, a.passphrase) == Open(oldKey, b.passphrase)
  }

  predicate IdentityOpens(row: IdentityRow, key: Key) { row.password.ciphertext.Some? ==> Open(key, row.password).Ok? }

  predicate KeyOpens(row: SshKeyRow, key: Key) {
    OpenBox(key, row.privateKey).Ok? && (Filled(row.passphrase) ==> Open(key, row.passphrase).Ok?)
  }

  ghost predicate IdentitiesOpen(rows: seq<IdentityRow>, key: Key) {
    forall row :: row in rows ==> IdentityOpens(row, key)
  }

  ghost predicate KeysOpen(rows: seq<SshKeyRow>, key: Key) { forall row :: row in rows ==> KeyOpens(row, key) }

  /** Every stored secret opens under the key. */
  ghost predicate AllOpen(d: Disk, key: Key) { IdentitiesOpen(d.identities, key) && KeysOpen(d.sshKeys, key) }

  ghost predicate IdentitiesMoved(b: seq<IdentityRow>, a: seq<IdentityRow>, n: nat, oldKey: Key, newKey: Key) {
    && |a| == |b| && n <= |b| && a[n..] == b[n..]
    && forall k :: 0 <= k < n ==> IdentityMoved(b[k], a[k], oldKey, newKey)
  }

  ghost predicate KeysMoved(b: seq<SshKeyRow>, a: seq<SshKeyRow>, n: nat, oldKey: Key, newKey: Key) {
    && |a| == |b| && n <= |b| && a[n..] == b[n..]
    && forall k :: 0 <= k < n ==> KeyMoved(b[k], a[k], oldKey, newKey)
  }

  /** The first `identities` identities and the first `keys` keys are under the new key, nothing else changed. */
  ghost predicate PartlyMoved(b: Disk, a: Disk, identities: nat, keys: nat, oldKey: Key, newKey: Key) {
    && a.secretFile == b.secretFile && a.meta == b.meta
    && IdentitiesMoved(b.identities, a.identities, identities, oldKey, newKey)
    && KeysMoved(b.sshKeys, a.sshKeys, keys, oldKey, newKey)
  }

  ghost predicate Opens(meta: Option<Meta>, key: Key) { Unlock(meta, key.password) == Ok(key) }

  // ---------------------------------------------------------------- where a migration stops

  /** A password without its nonce: reading the rows fails before any is rewritten. */
  predicate NullNonce(rows: seq<IdentityRow>) {
    exists row :: row in rows && row.password.ciphertext.Some? && row.password.nonce.None?
  }

  /** The index of the first row that does not open, or their number. */
  function FirstShutIdentity(rows: seq<IdentityRow>, key: Key): nat {
    if rows == [] || !IdentityOpens(rows[0], key) then 0 else 1 + FirstShutIdentity(rows[1..], key)
  }

  function FirstShutKey(rows: seq<SshKeyRow>, key: Key): nat {
    if rows == [] || !KeyOpens(rows[0], key) then 0 else 1 + FirstShutKey(rows[1..], key)
  }

  lemma {:induction false} FirstShutIdentityIs(rows: seq<IdentityRow>, key: Key)
    ensures var n := FirstShutIdentity(rows, key);
            && n <= |rows| && (n < |rows| ==> !IdentityOpens(rows[n], key))
            && forall k :: 0 <= k < n ==> IdentityOpens(rows[k], key)
  {
    if rows != [] { FirstShutIdentityIs(rows[1..], key); }
  }

  lemma {:induction false} FirstShutKeyIs(rows: seq<SshKeyRow>, key: Key)
    ensures var n := FirstShutKey(rows, key);
            && n <= |rows| && (n < |rows| ==> !KeyOpens(rows[n], key))
            && forall k :: 0 <= k < n ==> KeyOpens(rows[k], key)
  {
    if rows != [] { FirstShutKeyIs(rows[1..], key); }
  }

  /** How many identities and how many keys are rewritten before a migration stops. */
  function StopPoint(d: Disk, key: Key): (nat, nat) {
    if NullNonce(d.identities) then (0, 0)
    else
      var i := FirstShutIdentity(d.identities, key);
      (i, if i < |d.identities| then 0 else FirstShutKey(d.sshKeys, key))
  }

  /** What a failed migration leaves: the rows before the first that would not open are sealed under a key that is
      recorded nowhere, and the others are as they were. */
  ghost predicate StoppedMigration(b: Disk, a: Disk, oldKey: Key, lost: Key) {
    PartlyMoved(b, a, StopPoint(b, oldKey).0, StopPoint(b, oldKey).1, oldKey, lost) && !AllOpen(a, oldKey)
  }

  ghost predicate Migrated(b: Disk, a: Disk, oldKey: Key, password: string, r: Result<Key, Error>) {
    && (r.Ok? <==> AllOpen(b, oldKey))
    && (r.Ok? ==>
          && r.value.password == password && Opens(a.meta, r.value) && a.secretFile == b.secretFile
          && IdentitiesMoved(b.identities, a.identities, |b.identities|, oldKey, r.value)
          && KeysMoved(b.sshKeys, a.sshKeys, |b.sshKeys|, oldKey, r.value))
    && (r.Err? ==> r.error == if NullNonce(b.identities) then Db else Crypto)
    && (r.Err? ==> exists lost: Key :: StoppedMigration(b, a, oldKey, lost) && lost.password == password)
  }

  // ---------------------------------------------------------------- the vault

  function StoredSecret(file: Option<string>): string { if file.Some? then Trim(file.value) else "" }

  /** 32 random bytes in base64. */
  ghost predicate IsGeneratedSecret(s: string) { |s| == 44 && Trimmed(s) }

  function SecretOf(file: Option<string>, generated: string): string {
    if StoredSecret(file) != "" then StoredSecret(file) else generated
  }

  function WithSecret(d: Disk, generated: string): Disk {
    if StoredSecret(d.secretFile) != "" then d else d.(secretFile := Some(generated))
  }

  ghost predicate Created(b: Disk, a: Disk, password: string, r: Result<Key, Error>) {
    if b.meta.Some? then r == Err(VaultAlreadyInitialized) && a == b
    else r.Ok? && r.value.password == password && Opens(a.meta, r.value) && a == b.(meta := a.meta)
  }

  ghost predicate AutoUnlocked(b: Disk, a: Disk, generated: string, r: Result<Key, Error>) {
    var d, secret := WithSecret(b, generated), SecretOf(b.secretFile, generated);
    if b.meta.None? then Created(d, a, secret, r)
    else if Unlock(b.meta, secret) != Err(InvalidPassword) then r == Unlock(b.meta, secret) && a == d
    else if Unlock(b.meta, LEGACY_PUBLIC_PASSWORD).Ok? then
      Migrated(d, a, Unlock(b.meta, LEGACY_PUBLIC_PASSWORD).value, secret, r)
    else r == Err(InvalidPassword) && a == d
  }

  class Vault {
    var disk: Disk

    /** `rand::thread_rng().fill_bytes`, for salts and nonces. */
    method Random() returns (n: nat) {
      n := *;
    }

    method Encrypt(key: Key, plaintext: string) returns (b: Box)
      ensures OpenBox(key, b) == Ok(plaintext)
    {
      var nonce := Random();
      b := Box(nonce, Sealed(key, nonce, plaintext));
    }

    method GetOrCreateLocalSecret(generated: string) returns (secret: string)
      modifies this
      ensures secret == SecretOf(old(disk.secretFile), generated)
      ensures disk == WithSecret(old(disk), generated)
    {
      if disk.secretFile.Some? {
        var trimmed := Trim(disk.secretFile.value);
        if trimmed != "" {
          return trimmed;
        }
      }
      disk := disk.(secretFile := Some(generated));
      secret := generated;
    }

    method Create(password: string) returns (r: Result<Key, Error>)
      modifies this
      ensures Created(old(disk), disk, password, r)
    {
      if disk.meta.Some? {
        return Err(VaultAlreadyInitialized);
      }
      var salt := Random();
      var key := Derived(password, salt, DEFAULT_PARAMS);
      var verifier := Encrypt(key, VERIFIER_PLAINTEXT);
      disk := disk.(meta := Some(Meta(salt, DEFAULT_PARAMS, verifier)));
      r := Ok(key);
    }

    /** The first loop of the migration. All rows are read before the first is written. */
    method MoveIdentities(oldKey: Key, newKey: Key) returns (failure: Option<Error>, ghost n: nat)
      modifies this
      ensures PartlyMoved(old(disk), disk, n, 0, oldKey, newKey)
      ensures n == if NullNonce(old(disk.identities)) then 0 else FirstShutIdentity(old(disk.identities), oldKey)
      ensures failure.None? <==> IdentitiesOpen(old(disk.identities), oldKey)
      ensures failure.Some? ==> !IdentitiesOpen(disk.identities, oldKey)
      ensures failure.Some? ==> failure.value == if NullNonce(old(disk.identities)) then Db else Crypto
    {
      n := 0;
      if exists row :: row in disk.identities && row.password.ciphertext.Some? && row.password.nonce.None? {
        return Some(Db), 0;
      }
      ghost var before := disk;
      FirstShutIdentityIs(before.identities, oldKey);
      for i := 0 to |disk.identities|
        invariant n == i && |disk.identities| == |before.identities|
        invariant PartlyMoved(before, disk, i, 0, oldKey, newKey)
        invariant forall k :: 0 <= k < i ==> IdentityOpens(before.identities[k], oldKey)
      {
        var row := disk.identities[i];
        assert row == disk.identities[i..][0] == before.identities[i];
        if row.password.ciphertext.Some? {
          var plaintext := Open(oldKey, row.password);
          if plaintext.Err? {
            assert row in disk.identities && row in before.identities && !IdentityOpens(row, oldKey);
            return Some(Crypto), i;
          }
          var enc := Encrypt(newKey, plaintext.value);
          row := row.(password := Columns(Some(enc.nonce), Some(enc.ciphertext)));
        }
        disk := disk.(identities := disk.identities[i := row]);
        n := i + 1;
      }
      failure := None;
    }

    /** The second loop. */
    method MoveKeys(oldKey: Key, newKey: Key) returns (failure: Option<Error>, ghost n: nat)
      modifies this
      ensures disk == old(disk).(sshKeys := disk.sshKeys)
      ensures KeysMoved(old(disk.sshKeys), disk.sshKeys, n, oldKey, newKey)
      ensures n == FirstShutKey(old(disk.sshKeys), oldKey)
      ensures failure.None? <==> KeysOpen(old(disk.sshKeys), oldKey)
      ensures failure.Some? ==> !KeysOpen(disk.sshKeys, oldKey) && failure.value == Crypto
    {
      n := 0;
      ghost var before := disk;
      FirstShutKeyIs(before.sshKeys, oldKey);
      for i := 0 to |disk.sshKeys|
        invariant n == i && |disk.sshKeys| == |before.sshKeys|
        invariant disk == before.(sshKeys := disk.sshKeys)
        invariant KeysMoved(before.sshKeys, disk.sshKeys, i, oldKey, newKey)
        invariant forall k :: 0 <= k < i ==> KeyOpens(before.sshKeys[k], oldKey)
      {
        var row := disk.sshKeys[i];
        assert row == disk.sshKeys[i..][0] == before.sshKeys[i];
        var plaintext := OpenBox(oldKey, row.privateKey);
        var passphrase := Open(oldKey, row.passphrase);
        if plaintext.Err? || (Filled(row.passphrase) && passphrase.Err?) {
          assert row in disk.sshKeys && row in before.sshKeys && !KeyOpens(row, oldKey);
          return Some(Crypto), i;
        }
        var privateKey := Encrypt(newKey, plaintext.value);
        var newPass := NULLS;
        if Filled(row.passphrase) {
          var enc := Encrypt(newKey, passphrase.value);
          newPass := Columns(Some(enc.nonce), Some(enc.ciphertext));
        }
        disk := disk.(sshKeys := disk.sshKeys[i := SshKeyRow(row.id, privateKey, newPass)]);
        n := i + 1;
      }
      failure := None;
    }

    method MigrateToNewSecret(oldKey: Key, newPassword: string) returns (r: Result<Key, Error>)
      modifies this
      ensures Migrated(old(disk), disk, oldKey, newPassword, r)
    {
      var salt := Random();
      var newKey := Derived(newPassword, salt, DEFAULT_PARAMS);
      ghost var i, j;
      var failure;
      FirstShutIdentityIs(disk.identities, oldKey);
      FirstShutKeyIs(disk.sshKeys, oldKey);
      failure, i := MoveIdentities(oldKey, newKey);
      if failure.Some? {
        assert i < |disk.identities|;
        assert StoppedMigration(old(disk), disk, oldKey, newKey);
        return Err(failure.value);
      }
      assert i == |disk.identities| && !NullNonce(old(disk.identities));
      failure, j := MoveKeys(oldKey, newKey);
      if failure.Some? {
        assert StoppedMigration(old(disk), disk, oldKey, newKey);
        return Err(failure.value);
      }
      assert j == |disk.sshKeys|;
      var verifier := Encrypt(newKey, VERIFIER_PLAINTEXT);
      disk := disk.(meta := Some(Meta(salt, DEFAULT_PARAMS, verifier)));
      r := Ok(newKey);
    }

    method AutoUnlock(generated: string) returns (r: Result<Key, Error>)
      modifies this
      ensures AutoUnlocked(old(disk), disk, generated, r)
    {
      var secret := GetOrCreateLocalSecret(generated);
      if disk.meta.None? {
        r := Create(secret);
        return;
      }
      r := Unlock(disk.meta, secret);
      if r == Err(InvalidPassword) {
        var legacy := Unlock(disk.meta, LEGACY_PUBLIC_PASSWORD);
        if legacy.Ok? {
          r := MigrateToNewSecret(legacy.value, secret);
        }
      }
    }
  }

  // ---------------------------------------------------------------- what a launch does

  /** The secret a launch goes by is the stored one, trimmed, if it is not blank, and otherwise the one just generated.
      It is on disk afterwards, whatever comes next, and every later launch goes by it again. */
  lemma SecretIsKept(d: Disk, generated: string, later: string)
    requires IsGeneratedSecret(generated)
    ensures var after := WithSecret(d, generated);
            && (d.secretFile.Some? && Trim(d.secretFile.value) != "" ==>
                  SecretOf(d.secretFile, generated) == Trim(d.secretFile.value) && after == d)
            && (d.secretFile.None? || Trim(d.secretFile.value) == "" ==>
                  SecretOf(d.secretFile, generated) == generated && after == d.(secretFile := Some(generated)))
            && SecretOf(after.secretFile, later) == SecretOf(d.secretFile, generated)
            && WithSecret(after, later) == after
  {
    TrimLeavesTrimmed(generated);
  }

  /** When a launch unlocks: there was no vault yet, or the secret opens it, or the retired password does and every
      stored secret opens under its key. What it returns opens the vault again, with the secret as its password; and a
      vault that the retired password does not open either fails as it does with that. */
  lemma LaunchUnlocksIff(b: Disk, a: Disk, generated: string, r: Result<Key, Error>)
    requires AutoUnlocked(b, a, generated, r)
    ensures var secret, legacy := SecretOf(b.secretFile, generated), Unlock(b.meta, LEGACY_PUBLIC_PASSWORD);
            && (r.Ok? <==>
                  || b.meta.None?
                  || Unlock(b.meta, secret).Ok?
                  || (legacy.Ok? && AllOpen(b, legacy.value)))
            && (r.Ok? ==> r.value.password == secret && Unlock(a.meta, secret) == r)
            && (r.Err? && legacy.Err? ==> r.error == legacy.error)
            && (r.Err? && legacy.Ok? ==> r.error == if NullNonce(b.identities) then Db else Crypto)
  {
    var legacy := Unlock(b.meta, LEGACY_PUBLIC_PASSWORD);
    var d := WithSecret(b, generated);
    assert d.identities == b.identities && d.sshKeys == b.sshKeys;
    if legacy.Ok? && Unlock(b.meta, SecretOf(b.secretFile, generated)).Ok? {
      OnePasswordUnlocks(b.meta, LEGACY_PUBLIC_PASSWORD, SecretOf(b.secretFile, generated));
    }
  }

  /** What a launch writes: the secret's file if there was none, the vault's header if it made or moved one, and rows
      only when it moves a vault off the retired password. */
  lemma LaunchWritesOnly(b: Disk, a: Disk, generated: string, r: Result<Key, Error>)
    requires AutoUnlocked(b, a, generated, r)
    ensures a.secretFile == WithSecret(b, generated).secretFile
    ensures a.identities != b.identities || a.sshKeys != b.sshKeys || a.meta != b.meta ==>
              b.meta.None? || (Unlock(b.meta, SecretOf(b.secretFile, generated)) == Err(InvalidPassword)
                               && Unlock(b.meta, LEGACY_PUBLIC_PASSWORD).Ok?)
    ensures b.meta.None? ==> a.meta.Some? && a.identities == b.identities && a.sshKeys == b.sshKeys
    ensures r.Err? ==> a.meta == b.meta
  {
  }

  // ---------------------------------------------------------------- what a migration guarantees

  /** A launch that finds a vault still under the legacy password. */
  ghost predicate LegacyLaunch(b: Disk, a: Disk, generated: string, legacy: Key, r: Result<Key, Error>) {
    && AutoUnlocked(b, a, generated, r)
    && Unlock(b.meta, SecretOf(b.secretFile, generated)) == Err(InvalidPassword)
    && Unlock(b.meta, LEGACY_PUBLIC_PASSWORD) == Ok(legacy)
  }

  /** After a migration the vault opens with the installation's secret alone, the retired password is refused, and
      every moved secret opens under the new key to its old plaintext and under no other key. */
  lemma MigrationKeepsSecrets(b: Disk, a: Disk, generated: string, legacy: Key, r: Result<Key, Error>)
    requires LegacyLaunch(b, a, generated, legacy, r) && r.Ok?
    ensures forall password :: Unlock(a.meta, password).Ok? <==> password == SecretOf(b.secretFile, generated)
    ensures Unlock(a.meta, SecretOf(b.secretFile, generated)) == r
    ensures r.value != legacy
    ensures forall k :: 0 <= k < |b.identities| ==> IdentityMoved(b.identities[k], a.identities[k], legacy, r.value)
    ensures forall k :: 0 <= k < |b.sshKeys| ==> KeyMoved(b.sshKeys[k], a.sshKeys[k], legacy, r.value)
    ensures forall row, key :: row in a.identities && row.password.ciphertext.Some? && key != r.value
              ==> Open(key, row.password).Err?
    ensures forall row, key :: row in a.sshKeys && key != r.value
              ==> OpenBox(key, row.privateKey).Err? && Open(key, row.passphrase).Err?
  {
    forall row, key | row in a.identities && row.password.ciphertext.Some? && key != r.value
      ensures Open(key, row.password).Err?
    {
      var k :| 0 <= k < |a.identities| && a.identities[k] == row;
      assert IdentityMoved(b.identities[k], row, legacy, r.value);
    }
    forall row, key | row in a.sshKeys && key != r.value
      ensures OpenBox(key, row.privateKey).Err? && Open(key, row.passphrase).Err?
    {
      var k :| 0 <= k < |a.sshKeys| && a.sshKeys[k] == row;
      assert KeyMoved(b.sshKeys[k], row, legacy, r.value);
    }
    forall password | Unlock(a.meta, password).Ok? ensures password == SecretOf(b.secretFile, generated) {
      OnePasswordUnlocks(a.meta, password, SecretOf(b.secretFile, generated));
    }
  }

  /** Once it has worked, unlocking again takes the direct path: the same key, and nothing is written. */
  lemma SecondUnlockIsDirect(
    b: Disk, m: Disk, a: Disk, g1: string, g2: string, r1: Result<Key, Error>, r2: Result<Key, Error>)
    requires AutoUnlocked(b, m, g1, r1) && r1.Ok? && AutoUnlocked(m, a, g2, r2)
    requires IsGeneratedSecret(g1)
    ensures r2 == r1 && a == m
  {
    TrimLeavesTrimmed(g1);
    var secret := SecretOf(b.secretFile, g1);
    assert StoredSecret(m.secretFile) == secret;
    assert Unlock(m.meta, secret) == r1;
  }

  // ---------------------------------------------------------------- what a failed migration leaves

  /** A vault still under the legacy password, with a secret that does not open under it. */
  ghost predicate Stuck(d: Disk) {
    && StoredSecret(d.secretFile) != ""
    && Unlock(d.meta, StoredSecret(d.secretFile)) == Err(InvalidPassword)
    && Unlock(d.meta, LEGACY_PUBLIC_PASSWORD).Ok?
    && !AllOpen(d, Unlock(d.meta, LEGACY_PUBLIC_PASSWORD).value)
  }

  lemma FailedMigrationSticks(b: Disk, a: Disk, generated: string, legacy: Key, r: Result<Key, Error>)
    requires LegacyLaunch(b, a, generated, legacy, r) && r.Err? && IsGeneratedSecret(generated)
    ensures Stuck(a)
  {
    TrimLeavesTrimmed(generated);
  }

  lemma StuckStaysStuck(b: Disk, a: Disk, generated: string, r: Result<Key, Error>)
    requires AutoUnlocked(b, a, generated, r) && Stuck(b)
    ensures r.Err? && Stuck(a)
  {
  }

  /** After a failed migration no later launch ever unlocks the vault. */
  lemma {:induction false} NoLaterLaunchUnlocks(
    disks: seq<Disk>, generated: seq<string>, results: seq<Result<Key, Error>>, n: nat)
    requires |disks| == |results| + 1 && |generated| == |results| && Stuck(disks[0]) && n <= |results|
    requires forall k :: 0 <= k < |results| ==> AutoUnlocked(disks[k], disks[k + 1], generated[k], results[k])
    ensures Stuck(disks[n])
    ensures forall k :: 0 <= k < n ==> results[k].Err?
  {
    if n > 0 {
      NoLaterLaunchUnlocks(disks, generated, results, n - 1);
      StuckStaysStuck(disks[n - 1], disks[n], generated[n - 1], results[n - 1]);
    }
  }

  /** Some password still unlocks the vault with a key that opens these columns. */
  ghost predicate Readable(meta: Option<Meta>, c: Columns) {
    exists password :: Unlock(meta, password).Ok? && Open(Unlock(meta, password).value, c).Ok?
  }

  function AsColumns(b: Box): Columns { Columns(Some(b.nonce), Some(b.ciphertext)) }

  lemma ReadableIffLegacyOpens(meta: Option<Meta>, c: Columns, legacy: Key)
    requires Unlock(meta, LEGACY_PUBLIC_PASSWORD) == Ok(legacy)
    ensures Readable(meta, c) <==> Open(legacy, c).Ok?
  {
    if Readable(meta, c) {
      var password :| Unlock(meta, password).Ok? && Open(Unlock(meta, password).value, c).Ok?;
      OnePasswordUnlocks(meta, password, LEGACY_PUBLIC_PASSWORD);
    }
  }

  /** Which secrets a failed migration loses, by where they stand in the vault it began with. A readable password,
      private key or passphrase stays readable exactly if it does not precede the first row that does not open, in the
      order identities, then keys, or if a missing nonce stopped the reading. There is no transaction around the rows,
      and the key the others were rewritten under was never recorded. */
  lemma RewrittenSecretsAreLost(b: Disk, a: Disk, generated: string, legacy: Key, r: Result<Key, Error>)
    requires LegacyLaunch(b, a, generated, legacy, r) && r.Err?
    ensures |a.identities| == |b.identities| && |a.sshKeys| == |b.sshKeys|
    ensures forall k :: 0 <= k < |b.identities| && Open(legacy, b.identities[k].password).Ok? ==>
              (Readable(a.meta, a.identities[k].password) <==> StopPoint(b, legacy).0 <= k)
    ensures forall k :: 0 <= k < |b.sshKeys| && OpenBox(legacy, b.sshKeys[k].privateKey).Ok? ==>
              (Readable(a.meta, AsColumns(a.sshKeys[k].privateKey)) <==> StopPoint(b, legacy).1 <= k)
    ensures forall k :: 0 <= k < |b.sshKeys| && Open(legacy, b.sshKeys[k].passphrase).Ok? ==>
              (Readable(a.meta, a.sshKeys[k].passphrase) <==> StopPoint(b, legacy).1 <= k)
    ensures IdentitiesOpen(b.identities, legacy) ==> StopPoint(b, legacy).0 == |b.identities|
  {
    var d := WithSecret(b, generated);
    var i, j := StopPoint(b, legacy).0, StopPoint(b, legacy).1;
    assert StopPoint(d, legacy) == StopPoint(b, legacy);
    FirstShutIdentityIs(b.identities, legacy);
    var lost: Key :| StoppedMigration(d, a, legacy, lost) && lost.password == SecretOf(b.secretFile, generated);
    assert lost != legacy && a.meta == b.meta;
    forall k | 0 <= k < |b.identities| && Open(legacy, b.identities[k].password).Ok?
      ensures Readable(a.meta, a.identities[k].password) <==> i <= k
    {
      ReadableIffLegacyOpens(a.meta, a.identities[k].password, legacy);
      MovedIdentityIsLost(b.identities, a.identities, i, legacy, lost, k);
    }
    forall k | 0 <= k < |b.sshKeys|
      ensures OpenBox(legacy, b.sshKeys[k].privateKey).Ok? ==>
                (Readable(a.meta, AsColumns(a.sshKeys[k].privateKey)) <==> j <= k)
      ensures Open(legacy, b.sshKeys[k].passphrase).Ok? ==> (Readable(a.meta, a.sshKeys[k].passphrase) <==> j <= k)
    {
      ReadableIffLegacyOpens(a.meta, AsColumns(a.sshKeys[k].privateKey), legacy);
      ReadableIffLegacyOpens(a.meta, a.sshKeys[k].passphrase, legacy);
      MovedKeyIsLost(b.sshKeys, a.sshKeys, j, legacy, lost, k);
    }
  }

  lemma MovedIdentityIsLost(b: seq<IdentityRow>, a: seq<IdentityRow>, n: nat, legacy: Key, lost: Key, k: nat)
    requires IdentitiesMoved(b, a, n, legacy, lost) && lost != legacy && k < |b| && Open(legacy, b[k].password).Ok?
    ensures Open(legacy, a[k].password).Ok? <==> n <= k
  {
    if k < n {
      assert IdentityMoved(b[k], a[k], legacy, lost);
    } else {
      assert a[k] == a[n..][k - n] == b[n..][k - n];
    }
  }

  lemma MovedKeyIsLost(b: seq<SshKeyRow>, a: seq<SshKeyRow>, n: nat, legacy: Key, lost: Key, k: nat)
    requires KeysMoved(b, a, n, legacy, lost) && lost != legacy && k < |b|
    ensures OpenBox(legacy, b[k].privateKey).Ok? ==> (OpenBox(legacy, a[k].privateKey).Ok? <==> n <= k)
    ensures Open(legacy, b[k].passphrase).Ok? ==> (Open(legacy, a[k].passphrase).Ok? <==> n <= k)
  {
    if k < n {
      assert KeyMoved(b[k], a[k], legacy, lost);
    } else {
      assert a[k] == a[n..][k - n] == b[n..][k - n];
    }
  }

  /** That this happens: two identities, the second unreadable. The first is readable before, and never after. */
  lemma PartialMigrationExists(salt: Salt, newSalt: Salt, secret: string, plaintext: string)
    requires secret != "" && Trimmed(secret) && secret != LEGACY_PUBLIC_PASSWORD
    ensures var legacy := Derived(LEGACY_PUBLIC_PASSWORD, salt, DEFAULT_PARAMS);
            var lost := Derived(secret, newSalt, DEFAULT_PARAMS);
            var meta := Some(Meta(salt, DEFAULT_PARAMS, Box(0, Sealed(legacy, 0, VERIFIER_PLAINTEXT))));
            var good := IdentityRow(0, Columns(Some(1), Some(Sealed(legacy, 1, plaintext))));
            var moved := IdentityRow(0, Columns(Some(2), Some(Sealed(lost, 2, plaintext))));
            var bad := IdentityRow(1, Columns(Some(3), Some(Corrupt)));
            AutoUnlocked(Disk(Some(secret), meta, [good, bad], []), Disk(Some(secret), meta, [moved, bad], []),
                secret, Err(Crypto))
  {
    TrimLeavesTrimmed(secret);
    var legacy := Derived(LEGACY_PUBLIC_PASSWORD, salt, DEFAULT_PARAMS);
    var lost := Derived(secret, newSalt, DEFAULT_PARAMS);
    var meta := Some(Meta(salt, DEFAULT_PARAMS, Box(0, Sealed(legacy, 0, VERIFIER_PLAINTEXT))));
    var good := IdentityRow(0, Columns(Some(1), Some(Sealed(legacy, 1, plaintext))));
    var moved := IdentityRow(0, Columns(Some(2), Some(Sealed(lost, 2, plaintext))));
    var bad := IdentityRow(1, Columns(Some(3), Some(Corrupt)));
    var b, a := Disk(Some(secret), meta, [good, bad], []), Disk(Some(secret), meta, [moved, bad], []);
    assert !IdentityOpens(bad, legacy) && bad in b.identities && bad in a.identities;
    assert IdentityMoved(good, moved, legacy, lost);
    assert [moved, bad][1..] == [bad] == [good, bad][1..];
    assert b.identities[1..] == [bad] && FirstShutIdentity([bad], legacy) == 0;
    assert StoppedMigration(b, a, legacy, lost);
  }
}
