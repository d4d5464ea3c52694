/**
 * `PasswordContainer`: the accounts of one password file, with the password and file
 * name they are saved under. The table is updated in place and saved on request.
 */
module Container {
  import opened Wrappers
  import opened Cipher
  import opened Files
  import opened Encryption

  // ---------------------------------------------------------------- merging

  /** The name a conflicting account is merged under. */
  function Suffixed(name: string, suffix: string): (r: string)
    ensures |r| == |name| + 1 + |suffix|
    ensures r[..|name|] == name
  {
    name + "_" + suffix
  }

  /** Different names stay different once suffixed with the same suffix. */
  lemma SuffixedInjective(suffix: string)
    ensures forall a, b :: Suffixed(a, suffix) == Suffixed(b, suffix) ==> a == b
  {
    forall a, b | Suffixed(a, suffix) == Suffixed(b, suffix) ensures a == b {
      assert |a| == |b|;
      assert a == Suffixed(a, suffix)[..|a|];
    }
  }

  /** What `generateUniqueSuffix` promises: no suffixed name of the other table is taken in either table. */
  ghost predicate FreshSuffix(mine: Accounts, other: Accounts, suffix: string)
  {
    forall n :: n in other ==> Suffixed(n, suffix) !in mine && Suffixed(n, suffix) !in other
  }

  /** `n` is in both tables with different secrets. */
  predicate Conflicts(mine: Accounts, other: Accounts, n: string)
  {
    n in other && n in mine && mine[n] != other[n]
  }

  /** The accounts only `other` has. */
  function Added(mine: Accounts, other: Accounts): (a: Accounts)
    ensures forall k :: k in a <==> k in other && k !in mine
    ensures forall k :: k in a ==> a[k] == other[k]
  {
    map n | n in other && n !in mine :: other[n]
  }

  /** The accounts both have with different secrets, under their suffixed names with `other`'s secret. */
  function Renamed(mine: Accounts, other: Accounts, suffix: string): (r: Accounts)
    ensures forall n :: Conflicts(mine, other, n) ==> Suffixed(n, suffix) in r && r[Suffixed(n, suffix)] == other[n]
    ensures forall k :: k in r ==> exists n :: Conflicts(mine, other, n) && k == Suffixed(n, suffix)
  {
    SuffixedInjective(suffix);
    map n | n in other && Conflicts(mine, other, n) :: Suffixed(n, suffix) := other[n]
  }

  /**
   * `mergeFrom`: the accounts of `mine`, those only `other` has, and the conflicting
   * ones of `other` under their suffixed names.
   */
  function Merged(mine: Accounts, other: Accounts, suffix: string): Accounts
  {
    mine + Added(mine, other) + Renamed(mine, other, suffix)
  }

  /**
   * What the container test asks of a merge: every account of `mine` stays as it is; an
   * account only `other` has is added; an account both have with the same secret is not
   * duplicated; an account both have with different secrets is added under its suffixed
   * name with `other`'s secret; and nothing else appears.
   */
  lemma MergedSpec(mine: Accounts, other: Accounts, suffix: string)
    requires FreshSuffix(mine, other, suffix)
    ensures var r := Merged(mine, other, suffix);
            && (forall n :: n in mine ==> n in r && r[n] == mine[n])
            && (forall n :: n in other && n !in mine ==> n in r && r[n] == other[n])
            && (forall n :: Conflicts(mine, other, n) ==> Suffixed(n, suffix) in r && r[Suffixed(n, suffix)] == other[n])
            && (forall n :: n in other && n in mine && mine[n] == other[n] ==> Suffixed(n, suffix) !in r)
            && (forall k :: k in r ==> k in mine || k in other || exists n :: Conflicts(mine, other, n) && k == Suffixed(n, suffix))
  {
    var r := Merged(mine, other, suffix);
    var added, renamed := Added(mine, other), Renamed(mine, other, suffix);
    SuffixedInjective(suffix);
    forall n | n in mine || n in other ensures n !in renamed {
      assert forall m :: Conflicts(mine, other, m) ==> Suffixed(m, suffix) != n;
    }
    forall n | n in other && n in mine && mine[n] == other[n] ensures Suffixed(n, suffix) !in r {
      assert forall m :: Conflicts(mine, other, m) ==> Suffixed(m, suffix) != Suffixed(n, suffix);
    }
  }

  /** One step of merging entry by entry into the live table. */
  function MergeEntry(acc: Accounts, name: string, secret: string, suffix: string): Accounts
  {
    if name !in acc then acc[name := secret]
    else if acc[name] == secret then acc
    else acc[Suffixed(name, suffix) := secret]
  }

  /** Merging the entries of `other` one at a time, in `order`. */
  function MergeInOrder(mine: Accounts, other: Accounts, order: seq<string>, suffix: string): Accounts
    requires forall n :: n in order ==> n in other
  {
    if order == [] then mine
    else
      var n := |order| - 1;
      MergeEntry(MergeInOrder(mine, other, order[..n], suffix), order[n], other[order[n]], suffix)
  }

  /** Adding entry `x` to `other` adds it to the accounts only `other` has, unless `mine` has it. */
  lemma AddedStep(mine: Accounts, before: Accounts, x: string, v: string)
    requires x !in before
    ensures Added(mine, before[x := v]) == if x in mine then Added(mine, before) else Added(mine, before)[x := v]
  {
  }

  /** Adding entry `x` to `other` renames it too when it conflicts, and changes no other renaming. */
  lemma RenamedStep(mine: Accounts, before: Accounts, x: string, v: string, suffix: string)
    requires x !in before
    ensures Renamed(mine, before[x := v], suffix)
         == if Conflicts(mine, before[x := v], x) then Renamed(mine, before, suffix)[Suffixed(x, suffix) := v]
            else Renamed(mine, before, suffix)
  {
  }

  /** Updating a key of a union that the right-most table lacks updates the middle one. */
  lemma UpdateMiddle(m: Accounts, a: Accounts, r: Accounts, k: string, v: string)
    requires k !in r
    ensures (m + a + r)[k := v] == m + a[k := v] + r
  {
    var lhs, rhs := (m + a + r)[k := v], m + a[k := v] + r;
    assert lhs.Keys == rhs.Keys;
    forall j | j in lhs ensures lhs[j] == rhs[j] {
    }
  }

  /** Updating a key of a union updates its right-most table. */
  lemma UpdateLast(m: Accounts, r: Accounts, k: string, v: string)
    ensures (m + r)[k := v] == m + r[k := v]
  {
    var lhs, rhs := (m + r)[k := v], m + r[k := v];
    assert lhs.Keys == rhs.Keys;
    forall j | j in lhs ensures lhs[j] == rhs[j] {
    }
  }

  /** A key of the left table only keeps its value in the union. */
  lemma UnionLeft(m: Accounts, a: Accounts, r: Accounts, k: string)
    requires k in m && k !in a && k !in r
    ensures k in m + a + r && (m + a + r)[k] == m[k]
  {
  }

  /** With a suffix fresh for `after`, no renamed account of a part of it is an account of `after`. */
  lemma NotRenamed(mine: Accounts, before: Accounts, after: Accounts, x: string, suffix: string)
    requires FreshSuffix(mine, after, suffix)
    requires before.Keys <= after.Keys && x in after
    ensures x !in Renamed(mine, before, suffix)
  {
    forall k | k in Renamed(mine, before, suffix) ensures k != x {
      var n :| Conflicts(mine, before, n) && k == Suffixed(n, suffix);
      assert n in after;
    }
  }

  /** Merging one more entry `x` of `other` into the merge of the rest is the merge of both. */
  lemma MergeEntryStep(mine: Accounts, before: Accounts, x: string, v: string, suffix: string)
    requires x !in before
    requires FreshSuffix(mine, before[x := v], suffix)
    ensures FreshSuffix(mine, before, suffix)
    ensures MergeEntry(Merged(mine, before, suffix), x, v, suffix) == Merged(mine, before[x := v], suffix)
  {
    var after := before[x := v];
    AddedStep(mine, before, x, v);
    RenamedStep(mine, before, x, v, suffix);
    var added, renamed := Added(mine, before), Renamed(mine, before, suffix);
    var acc := mine + added + renamed;
    assert Suffixed(x, suffix) !in mine && Suffixed(x, suffix) !in after;
    NotRenamed(mine, before, after, x, suffix);
    if x !in mine {
      assert x !in acc;
      UpdateMiddle(mine, added, renamed, x, v);
    } else if mine[x] == v {
      UnionLeft(mine, added, renamed, x);
    } else {
      assert Suffixed(x, suffix) !in added;
      UnionLeft(mine, added, renamed, x);
      UpdateLast(mine + added, renamed, Suffixed(x, suffix), v);
    }
  }

  /** A suffix fresh for a table is fresh for any part of it. */
  lemma FreshSuffixRestrict(mine: Accounts, other: Accounts, order: seq<string>, suffix: string)
    requires FreshSuffix(mine, other, suffix)
    requires forall n :: n in order ==> n in other
    ensures FreshSuffix(mine, Restrict(other, order), suffix)
  {
  }

  /**
   * Entry-by-entry merging reaches `Merged` whatever order the entries of `other` are
   * visited in, so the result does not depend on the hash order of `Properties`.
   */
  lemma {:induction false} MergeInOrderIsMerged(mine: Accounts, other: Accounts, order: seq<string>, suffix: string)
    requires FreshSuffix(mine, other, suffix)
    requires forall n :: n in order ==> n in other
    requires forall i, j :: 0 <= i < j < |order| ==> order[i] != order[j]
    ensures MergeInOrder(mine, other, order, suffix) == Merged(mine, Restrict(other, order), suffix)
  {
    if order == [] {
      assert Restrict(other, order) == map[];
    } else {
      var n := |order| - 1;
      var prefix, x := order[..n], order[n];
      assert order == prefix + [x];
      assert x !in prefix by {
        forall i | 0 <= i < |prefix| ensures prefix[i] != x {
          assert order[i] != order[n];
        }
      }
      MergeInOrderIsMerged(mine, other, prefix, suffix);
      var before := Restrict(other, prefix);
      RestrictSnoc(other, prefix, x);
      FreshSuffixRestrict(mine, other, order, suffix);
      MergeEntryStep(mine, before, x, other[x], suffix);
    }
  }

  /** Merging the container test's other table entry by entry, in the order new, identical, conflicting. */
  lemma MergeScenarioInOrder(a1: string, a2: string, a3: string, a4: string,
                             s1: string, s2: string, s3: string, s4: string, s5: string, suffix: string)
    requires a1 != a2 && a1 != a3 && a1 != a4 && a2 != a3 && a2 != a4 && a3 != a4
    requires s3 != s5
    ensures MergeInOrder(map[a1 := s1, a2 := s2, a3 := s3], map[a4 := s4, a2 := s2, a3 := s5], [a4, a2, a3], suffix)
         == map[a1 := s1, a2 := s2, a3 := s3, a4 := s4, Suffixed(a3, suffix) := s5]
  {
    var mine := map[a1 := s1, a2 := s2, a3 := s3];
    var other := map[a4 := s4, a2 := s2, a3 := s5];
    var step1 := MergeEntry(mine, a4, s4, suffix);
    assert [a4][..0] == [];
    assert MergeInOrder(mine, other, [a4], suffix) == step1 == mine[a4 := s4];
    var step2 := MergeEntry(step1, a2, s2, suffix);
    assert [a4, a2][..1] == [a4];
    assert MergeInOrder(mine, other, [a4, a2], suffix) == step2 == step1;
    assert [a4, a2, a3][..2] == [a4, a2];
  }

  /** A table of five distinct names has five entries. */
  lemma FiveEntries(a1: string, a2: string, a3: string, a4: string, a5: string,
                    s1: string, s2: string, s3: string, s4: string, s5: string)
    requires a1 != a2 && a1 != a3 && a1 != a4 && a1 != a5 && a2 != a3 && a2 != a4 && a2 != a5
    requires a3 != a4 && a3 != a5 && a4 != a5
    ensures |map[a1 := s1, a2 := s2, a3 := s3, a4 := s4, a5 := s5]| == 5
  {
    var m := map[a1 := s1, a2 := s2, a3 := s3, a4 := s4, a5 := s5];
    assert m.Keys == {a1, a2, a3, a4} + {a5};
    assert |{a1, a2, a3, a4}| == 4;
  }

  /**
   * The shape of the container test's merge: three accounts of our own, and another table
   * with one new account, one identical account and one conflicting account. Exactly five
   * accounts result: ours, the new one, and the conflicting one under its suffixed name.
   */
  lemma MergeScenario(a1: string, a2: string, a3: string, a4: string,
                      s1: string, s2: string, s3: string, s4: string, s5: string, suffix: string)
    requires a1 != a2 && a1 != a3 && a1 != a4 && a2 != a3 && a2 != a4 && a3 != a4
    requires s3 != s5
    requires FreshSuffix(map[a1 := s1, a2 := s2, a3 := s3], map[a4 := s4, a2 := s2, a3 := s5], suffix)
    ensures Merged(map[a1 := s1, a2 := s2, a3 := s3], map[a4 := s4, a2 := s2, a3 := s5], suffix)
         == map[a1 := s1, a2 := s2, a3 := s3, a4 := s4, Suffixed(a3, suffix) := s5]
    ensures |Merged(map[a1 := s1, a2 := s2, a3 := s3], map[a4 := s4, a2 := s2, a3 := s5], suffix)| == 5
  {
    var mine := map[a1 := s1, a2 := s2, a3 := s3];
    var other := map[a4 := s4, a2 := s2, a3 := s5];
    var order := [a4, a2, a3];
    MergeScenarioInOrder(a1, a2, a3, a4, s1, s2, s3, s4, s5, suffix);
    MergeInOrderIsMerged(mine, other, order, suffix);
    assert IsEnumeration(order, other.Keys);
    RestrictEnumeration(other, order);
    var x := Suffixed(a3, suffix);
    assert x !in mine && x != a4;
    FiveEntries(a1, a2, a3, a4, x, s1, s2, s3, s4, s5);
  }

  /** The container test's own merge, with the suffix fixed to "123". */
  lemma MergeExample()
    ensures var r := Merged(map["acct1" := "secret1", "acct2" := "secret2", "acct3" := "secret3"],
                            map["acct4" := "secret4", "acct2" := "secret2", "acct3" := "secret5"], "123");
            && r == map["acct1" := "secret1", "acct2" := "secret2", "acct3" := "secret3",
                        "acct4" := "secret4", "acct3_123" := "secret5"]
            && |r| == 5
  {
    var mine := map["acct1" := "secret1", "acct2" := "secret2", "acct3" := "secret3"];
    var other := map["acct4" := "secret4", "acct2" := "secret2", "acct3" := "secret5"];
    assert FreshSuffix(mine, other, "123");
    MergeScenario("acct1", "acct2", "acct3", "acct4", "secret1", "secret2", "secret3", "secret4", "secret5", "123");
    SuffixedExample();
  }

  /** The suffixed name the container test expects. */
  lemma SuffixedExample()
    ensures Suffixed("acct3", "123") == "acct3_123"
  {
  }

  // ---------------------------------------------------------------- the container

  /** The table `init` loads from a file: empty for a zero-length file, else the decrypted one. */
  function InitialAccounts(em: EncryptionManager, file: FileProxy, password: string): (r: Result<Accounts, CryptoError>)
    requires Valid(em)
    ensures file.IsEmpty() ==> r == Success(map[])
  {
    if file.IsEmpty() then Success(map[]) else DecryptedAccounts(em, file.contents, password)
  }

  /** A file `save` wrote loads back, under the same password, as the table that was saved. */
  lemma InitAfterSave(em: EncryptionManager, props: Accounts, password: string, file: FileProxy)
    requires Valid(em) && WellFormed(props)
    requires EncryptsTo(em, props, password, file.contents)
    ensures InitialAccounts(em, file, password) == Success(props)
  {
    var order :| IsEnumeration(order, props.Keys) && file.contents == EncryptedBytes(em, props, order, password);
    assert |file.contents| > 0;
    SaveLoadRoundTrip(em, props, password, file.contents);
  }

  class PasswordContainer {
    var properties: Accounts
    var encryptionManager: Option<EncryptionManager>
    var password: string
    var storageFileName: string

    /** A fresh container: nothing loaded, no manager yet. */
    constructor ()
      ensures properties == map[] && encryptionManager == None
      ensures password == [] && storageFileName == []
    {
      properties := map[];
      encryptionManager := None;
      password := [];
      storageFileName := [];
    }

    /** `init` has run: the container has a working encryption manager. */
    ghost predicate Ready()
      reads this
    {
      encryptionManager.Some? && Valid(encryptionManager.value)
    }

    /**
     * `init`: records the password, the file's name and the manager; a zero-length file
     * gives an empty table without decrypting, anything else is decrypted. A cipher
     * failure propagates and leaves the table as it was.
     */
    method Init(em: EncryptionManager, rootPassword: string, existingFile: FileProxy) returns (r: Outcome<CryptoError>)
      requires Valid(em)
      modifies this
      ensures Ready()
      ensures password == rootPassword && storageFileName == existingFile.Name() && encryptionManager == Some(em)
      ensures existingFile.IsEmpty() ==> r == Pass && properties == map[]
      ensures match InitialAccounts(em, existingFile, rootPassword)
              case Success(m) => r == Pass && properties == m
              case Failure(e) => r == Fail(e) && properties == old(properties)
    {
      password := rootPassword;
      storageFileName := existingFile.Name();
      encryptionManager := Some(em);
      if existingFile.IsEmpty() {
        properties := map[];
        r := Pass;
      } else {
        r := Decrypt(rootPassword, existingFile);
      }
    }

    /** `decrypt`: replaces the table by the decrypted contents of the file. */
    method Decrypt(rootPassword: string, existingFile: FileProxy) returns (r: Outcome<CryptoError>)
      requires Ready()
      modifies this
      ensures Ready()
      ensures encryptionManager == old(encryptionManager)
      ensures password == old(password) && storageFileName == old(storageFileName)
      ensures match DecryptedAccounts(encryptionManager.value, existingFile.contents, rootPassword)
              case Success(m) => r == Pass && properties == m
              case Failure(e) => r == Fail(e) && properties == old(properties)
    {
      var result, _ := Encryption.Decrypt(encryptionManager.value, existingFile, rootPassword);
      match result
      case Success(m) =>
        properties := m;
        r := Pass;
      case Failure(e) =>
        r := Fail(e);
    }

    /** `doesAccountExist`: key membership by string value. */
    function DoesAccountExist(accountName: string): (b: bool)
      reads this
      ensures b <==> accountName in properties.Keys
    {
      accountName in properties
    }

    /** `loadKeys`: exactly the names for which an account exists. */
    function LoadKeys(): (keys: set<string>)
      reads this
      ensures forall n :: n in keys <==> DoesAccountExist(n)
    {
      properties.Keys
    }

    /** `loadSecret`: the secret of an existing account, nothing (null) otherwise. */
    function LoadSecret(accountName: string): (r: Option<string>)
      reads this
      ensures r.Some? <==> DoesAccountExist(accountName)
      ensures r.Some? ==> r.value == properties[accountName]
    {
      if accountName in properties then Some(properties[accountName]) else None
    }

    /** `addAccount`: upsert; the name now has this secret and every other name keeps its own. */
    method AddAccount(accountName: string, accountSecret: string)
      modifies this
      ensures properties == old(properties)[accountName := accountSecret]
      ensures encryptionManager == old(encryptionManager)
      ensures password == old(password) && storageFileName == old(storageFileName)
      ensures LoadSecret(accountName) == Some(accountSecret)
      ensures forall n :: n != accountName ==> LoadSecret(n) == old(LoadSecret(n))
    {
      properties := properties[accountName := accountSecret];
    }

    /** `modify`: the same upsert as `addAccount`, with no existence check. */
    method Modify(accountName: string, accountSecret: string)
      modifies this
      ensures properties == old(properties)[accountName := accountSecret]
      ensures encryptionManager == old(encryptionManager)
      ensures password == old(password) && storageFileName == old(storageFileName)
      ensures LoadSecret(accountName) == Some(accountSecret)
      ensures forall n :: n != accountName ==> LoadSecret(n) == old(LoadSecret(n))
    {
      properties := properties[accountName := accountSecret];
    }

    /** `remove`: the name no longer exists, every other account stays; absent names change nothing. */
    method Remove(accountName: string)
      modifies this
      ensures properties == old(properties) - {accountName}
      ensures encryptionManager == old(encryptionManager)
      ensures password == old(password) && storageFileName == old(storageFileName)
      ensures !DoesAccountExist(accountName)
      ensures forall n :: n != accountName ==> LoadSecret(n) == old(LoadSecret(n))
      ensures !old(DoesAccountExist(accountName)) ==> properties == old(properties)
    {
      properties := properties - {accountName};
    }

    /** `rename`: its body is not part of this model; the resulting table is the given function's. */
    method Rename(oldName: string, newName: string, rename: (Accounts, string, string) -> Accounts)
      modifies this
      ensures properties == rename(old(properties), oldName, newName)
      ensures encryptionManager == old(encryptionManager)
      ensures password == old(password) && storageFileName == old(storageFileName)
    {
      properties := rename(properties, oldName, newName);
    }

    /** `importAccounts`: its body is not part of this model; the resulting table is the given function's. */
    method ImportAccounts(source: FileProxy, importer: (Accounts, FileProxy) -> Accounts)
      modifies this
      ensures properties == importer(old(properties), source)
      ensures encryptionManager == old(encryptionManager)
      ensures password == old(password) && storageFileName == old(storageFileName)
    {
      properties := importer(properties, source);
    }

    /** `mergeFrom`, as its test states it, with the unique suffix supplied. */
    method MergeFrom(other: PasswordContainer, suffix: string)
      requires FreshSuffix(properties, other.properties, suffix)
      modifies this
      ensures properties == Merged(old(properties), old(other.properties), suffix)
      ensures encryptionManager == old(encryptionManager)
      ensures password == old(password) && storageFileName == old(storageFileName)
    {
      properties := Merged(properties, other.properties, suffix);
    }

    /**
     * `save`: encrypts the current table with the recorded password into the recorded
     * file. Reading the written bytes back with that password gives the same table
     * whenever its names and secrets fit the line format.
     */
    method Save() returns (written: FileProxy)
      requires Ready()
      ensures written.path == storageFileName && written.present
      ensures EncryptsTo(encryptionManager.value, properties, password, written.contents)
      ensures WellFormed(properties) ==>
                DecryptedAccounts(encryptionManager.value, written.contents, password) == Success(properties)
    {
      written := Encrypt(encryptionManager.value, properties, password, storageFileName);
      if WellFormed(properties) {
        SaveLoadRoundTrip(encryptionManager.value, properties, password, written.contents);
      }
    }
  }
}
