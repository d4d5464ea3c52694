/**
 * `SPAManager`: picks one command from the command-line options and runs it against the
 * password container, asking the user for names, secrets and confirmations.
 *
 * The user's answers, the files on disk and the bodies of the container operations that
 * are not part of this model come in as parameters; what is shown to the user, and every
 * save, is recorded as a list of events.
 */
module Manager {
  import opened Wrappers
  import opened Cipher
  import opened Files
  import opened StringUtils
  import opened Encryption
  import opened Container

  const AcctAlreadyExists: string := "Account already exists "
  const AcctNotFoundMsg: string := "Could not locate account "

  /** The options the manager reads; a missing string option is `None`. */
  datatype CLIParameters = CLIParameters(
    file: Option<string>,
    create: bool,
    list: bool,
    newAcct: bool,
    show: bool,
    update: bool,
    delete: bool,
    dump: Option<string>,
    importFile: Option<string>,
    rename: bool,
    search: bool,
    mergeFile: Option<string>)

  /** The handler `executeUserCommand` runs. */
  datatype Command =
    | List
    | New
    | Show
    | Update
    | Delete
    | Dump(fileName: string)
    | Import(fileName: string)
    | Rename
    | Search
    | Merge(fileName: string)
    | NoCommand
  {
    /** The commands that only show things: listing, showing, searching and dumping. */
    predicate ReadOnly()
    {
      List? || Show? || Search? || Dump?
    }
  }

  /** Every command the options ask for, in priority order. */
  function Requested(p: CLIParameters): (cs: seq<Command>)
    ensures NoCommand !in cs
  {
    RequestedFlags(p) + RequestedFiles(p)
  }

  /** The requested commands among the first five options, which are plain flags. */
  function RequestedFlags(p: CLIParameters): (cs: seq<Command>)
    ensures NoCommand !in cs
  {
    (if p.list then [List] else [])
    + (if p.newAcct then [New] else [])
    + (if p.show then [Show] else [])
    + (if p.update then [Update] else [])
    + (if p.delete then [Delete] else [])
  }

  /** The requested commands among the last five options, three of which name a file. */
  function RequestedFiles(p: CLIParameters): (cs: seq<Command>)
    ensures NoCommand !in cs
  {
    (if !IsBlankOrNull(p.dump) then [Dump(p.dump.value)] else [])
    + (if !IsBlankOrNull(p.importFile) then [Import(p.importFile.value)] else [])
    + (if p.rename then [Rename] else [])
    + (if p.search then [Search] else [])
    + (if !IsBlankOrNull(p.mergeFile) then [Merge(p.mergeFile.value)] else [])
  }

  /** `executeUserCommand`: at most one handler runs, the first one the options request. */
  function SelectCommand(p: CLIParameters): (c: Command)
    ensures c == NoCommand <==> Requested(p) == []
    ensures c != NoCommand ==> c == Requested(p)[0]
  {
    if p.list then List
    else if p.newAcct then New
    else if p.show then Show
    else if p.update then Update
    else if p.delete then Delete
    else if !IsBlankOrNull(p.dump) then Dump(p.dump.value)
    else if !IsBlankOrNull(p.importFile) then Import(p.importFile.value)
    else if p.rename then Rename
    else if p.search then Search
    else if !IsBlankOrNull(p.mergeFile) then Merge(p.mergeFile.value)
    else NoCommand
  }

  /** The names `searchAccounts` shows: those containing the pattern, ignoring case, in ascending order. */
  function SearchResults(names: set<string>, pattern: string): (r: seq<string>)
    ensures SortedStrictly(r)
    ensures forall n :: n in r <==> n in names && ContainsIgnoreCase(n, pattern)
  {
    SortedSeq(set n | n in names && ContainsIgnoreCase(n, pattern))
  }

  /** How `executeUserCommand` and the handlers can fail. */
  datatype Error =
    | PasswordNotConfirmed(message: string)
    | AccountAlreadyExists(message: string)
    | CannotDecrypt(cause: CryptoError)

  /** `readAndValidateNewName` after the name has been read: an existing name is refused. */
  function ValidateNewName(props: Accounts, newName: string): (r: Result<string, Error>)
    ensures r.Success? <==> newName !in props
    ensures r.Success? ==> r.value == newName
    ensures r.Failure? ==> r.error == AccountAlreadyExists(AcctAlreadyExists + newName)
  {
    if newName in props then Failure(AccountAlreadyExists(AcctAlreadyExists + newName)) else Success(newName)
  }

  /** What the user types, each prompt answered once. */
  datatype Answers = Answers(
    spamPassword: string,
    confirmation: string,
    accountName: string,
    accountSecret: string,
    yes: bool,
    newAccountName: string,
    searchPattern: string,
    mergePassword: string)

  /** The container operations whose bodies are not part of this model. */
  datatype Unshown = Unshown(
    rename: (Accounts, string, string) -> Accounts,
    importer: (Accounts, FileProxy) -> Accounts,
    uniqueSuffix: (Accounts, Accounts) -> string)

  /** `generateUniqueSuffix` keeps its promise for every pair of tables. */
  ghost predicate SuffixesFresh(fx: Unshown)
  {
    forall mine, other :: FreshSuffix(mine, other, fx.uniqueSuffix(mine, other))
  }

  /** What the user sees, and each save. */
  datatype Event =
    | Help
    | Shown(text: string)
    | ShownError(text: string)
    | ShownSet(names: set<string>)
    | Touched(fileName: string)
    | Saved(fileName: string, accounts: Accounts)
    | Dumped(fileName: string)

  /** One `showToUser` per text, in order. */
  function ShownEach(texts: seq<string>): (evs: seq<Event>)
    ensures |evs| == |texts|
    ensures forall i :: 0 <= i < |texts| ==> evs[i] == Shown(texts[i])
  {
    seq(|texts|, i requires 0 <= i < |texts| => Shown(texts[i]))
  }

  /** `after` extends `before` without showing help. */
  ghost predicate AppendsWithoutHelp(before: seq<Event>, after: seq<Event>)
  {
    && |before| <= |after|
    && after[..|before|] == before
    && forall i :: |before| <= i < |after| ==> after[i] != Help
  }

  /** What a command leaves behind: the table, what was shown or saved, and how it ended. */
  datatype Step = Step(accounts: Accounts, shown: seq<Event>, outcome: Outcome<Error>)

  /** `listAllAccounts`: every name is shown. */
  function ListStep(accounts: Accounts): (s: Step)
    ensures s.accounts == accounts && s.outcome == Pass && SavesNothing(s)
    ensures |s.shown| == 1
    ensures s.shown == [ShownSet(accounts.Keys)]
  {
    Step(accounts, [ShownSet(accounts.Keys)], Pass)
  }

  /** `addAccount`: the named account gets the secret read, and the table is saved. */
  function NewStep(accounts: Accounts, file: string, answers: Answers): (s: Step)
    ensures s.accounts == accounts[answers.accountName := answers.accountSecret]
    ensures s.shown != [] && s.shown[|s.shown| - 1] == Saved(file, s.accounts)
    ensures s.outcome == Pass
  {
    var upserted := accounts[answers.accountName := answers.accountSecret];
    Step(upserted, [Saved(file, upserted)], Pass)
  }

  /** `showSecret`: the secret of an existing account, an error naming a missing one. */
  function ShowStep(accounts: Accounts, answers: Answers): (s: Step)
    ensures s.accounts == accounts && s.outcome == Pass && SavesNothing(s)
    ensures |s.shown| == 1
    ensures answers.accountName in accounts ==> s.shown == [Shown(accounts[answers.accountName])]
    ensures answers.accountName !in accounts ==> s.shown == [ShownError(AcctNotFoundMsg + answers.accountName)]
  {
    var name := answers.accountName;
    Step(accounts, [if name in accounts then Shown(accounts[name]) else ShownError(AcctNotFoundMsg + name)], Pass)
  }

  /** `modifySecret`: an existing account is updated and saved; a missing one is offered, and added only on a yes. */
  function UpdateStep(accounts: Accounts, file: string, answers: Answers): (s: Step)
    ensures s.accounts != accounts ==> s.shown != [] && s.shown[|s.shown| - 1] == Saved(file, s.accounts)
    ensures answers.accountName in accounts || answers.yes ==>
              && s.accounts == accounts[answers.accountName := answers.accountSecret]
              && s.shown != [] && s.shown[|s.shown| - 1] == Saved(file, s.accounts)
    ensures answers.accountName !in accounts && !answers.yes ==> s.accounts == accounts && SavesNothing(s)
    ensures s.outcome == Pass
  {
    var name := answers.accountName;
    var upserted := accounts[name := answers.accountSecret];
    var offer := Shown("Could not find account with name " + name + ". Would you like to add it yes/no ? [no]");
    if name in accounts then Step(upserted, [Saved(file, upserted)], Pass)
    else if answers.yes then Step(upserted, [offer, Saved(file, upserted)], Pass)
    else Step(accounts, [offer], Pass)
  }

  /** `removeAccount`: an existing account is removed and the table saved; a missing one is reported. */
  function DeleteStep(accounts: Accounts, file: string, answers: Answers): (s: Step)
    ensures s.accounts != accounts ==> s.shown != [] && s.shown[|s.shown| - 1] == Saved(file, s.accounts)
    ensures answers.accountName in accounts ==>
              && s.accounts == accounts - {answers.accountName}
              && s.shown == [Saved(file, s.accounts)]
    ensures answers.accountName !in accounts ==> s.accounts == accounts && SavesNothing(s)
    ensures s.outcome == Pass
  {
    var name := answers.accountName;
    if name in accounts then Step(accounts - {name}, [Saved(file, accounts - {name})], Pass)
    else Step(accounts, [Shown("Could not locate account " + name)], Pass)
  }

  /** `dumpAccounts`: a blank name and an existing file are refused; otherwise the accounts are dumped. */
  function DumpStep(accounts: Accounts, fileName: string, fs: FileSystem): (s: Step)
    ensures s.accounts == accounts && s.outcome == Pass && SavesNothing(s)
    ensures |s.shown| == 1
    ensures IsBlank(fileName) || fileName in fs ==> s.shown[0].ShownError?
    ensures !IsBlank(fileName) && fileName !in fs ==> s.shown == [Dumped(fileName)]
  {
    Step(accounts,
         [if IsBlank(fileName) then ShownError("Cannot accept blank file name for dumping accounts.")
          else if fileName in fs then ShownError("It seems that the file " + fileName + " already exists.")
          else Dumped(fileName)],
         Pass)
  }

  /** `importAccounts`: a blank name and a missing file are refused; otherwise the import is applied and saved. */
  function ImportStep(accounts: Accounts, file: string, fileName: string, fs: FileSystem, fx: Unshown): (s: Step)
    ensures s.accounts != accounts ==> s.shown != [] && s.shown[|s.shown| - 1] == Saved(file, s.accounts)
    ensures IsBlank(fileName) || fileName !in fs ==>
              && s.accounts == accounts && SavesNothing(s)
              && |s.shown| == 1 && s.shown[0].ShownError?
    ensures !IsBlank(fileName) && fileName in fs ==>
              && s.accounts == fx.importer(accounts, Open(fs, fileName))
              && s.shown == [Saved(file, s.accounts)]
    ensures s.outcome == Pass
  {
    if IsBlank(fileName) then
      Step(accounts, [ShownError("Cannot accept blank file name for importing accounts.")], Pass)
    else if fileName !in fs then
      Step(accounts, [ShownError("Could not locate file " + fileName + " for importing accounts.")], Pass)
    else
      var imported := fx.importer(accounts, Open(fs, fileName));
      Step(imported, [Saved(file, imported)], Pass)
  }

  /**
   * `renameAccount`: a missing old name is reported; an existing new name ends the command
   * with `ACCT_ALREADY_EXISTS`; otherwise the account is renamed and the table saved.
   */
  function RenameStep(accounts: Accounts, file: string, answers: Answers, fx: Unshown): (s: Step)
    ensures s.accounts != accounts ==> s.shown != [] && s.shown[|s.shown| - 1] == Saved(file, s.accounts)
    ensures s.outcome.Fail? ==> s.accounts == accounts && SavesNothing(s)
    ensures s.accounts != accounts ==> answers.accountName in accounts && answers.newAccountName !in accounts
    ensures answers.accountName !in accounts ==> s.accounts == accounts && SavesNothing(s) && s.outcome == Pass
    ensures answers.accountName in accounts && answers.newAccountName in accounts ==>
              s.outcome == Fail(AccountAlreadyExists(AcctAlreadyExists + answers.newAccountName))
    ensures answers.accountName in accounts && answers.newAccountName !in accounts ==>
              && s.accounts == fx.rename(accounts, answers.accountName, answers.newAccountName)
              && s.outcome == Pass
              && s.shown != [] && s.shown[|s.shown| - 1] == Saved(file, s.accounts)
  {
    var oldName, newName := answers.accountName, answers.newAccountName;
    var located := Shown("Account " + oldName + " has been located. Please enter the new name.");
    if oldName !in accounts then
      Step(accounts, [ShownError("Could not find account with name " + oldName + ".")], Pass)
    else
      match ValidateNewName(accounts, newName)
      case Failure(e) => Step(accounts, [located], Fail(e))
      case Success(name) =>
        var renamed := fx.rename(accounts, oldName, name);
        Step(renamed, [located, Saved(file, renamed)], Pass)
  }

  /** `searchAccounts`: every matching name, in ascending order. */
  function SearchStep(accounts: Accounts, answers: Answers): (s: Step)
    ensures s.accounts == accounts && s.outcome == Pass && SavesNothing(s)
    ensures s.shown == ShownEach(SearchResults(accounts.Keys, answers.searchPattern))
  {
    Step(accounts, ShownEach(SearchResults(accounts.Keys, answers.searchPattern)), Pass)
  }

  /**
   * `mergeFiles`: the other file is loaded with its own password (a missing or empty file
   * gives no accounts), merged in and saved; a decryption failure ends the command.
   */
  function MergeStep(accounts: Accounts, file: string, mergeFile: string, answers: Answers,
                     fs: FileSystem, fx: Unshown, em: EncryptionManager): (s: Step)
    requires Valid(em)
    ensures s.accounts != accounts ==> s.shown != [] && s.shown[|s.shown| - 1] == Saved(file, s.accounts)
    ensures s.outcome.Fail? ==> s.accounts == accounts && SavesNothing(s)
    ensures var loaded := InitialAccounts(em, Open(fs, mergeFile), answers.mergePassword);
            && (loaded.Success? ==>
                  && s.accounts == Merged(accounts, loaded.value, fx.uniqueSuffix(accounts, loaded.value))
                  && s.shown == [Saved(file, s.accounts)]
                  && s.outcome == Pass)
            && (loaded.Failure? ==> s == Step(accounts, [], Fail(CannotDecrypt(loaded.error))))
  {
    match InitialAccounts(em, Open(fs, mergeFile), answers.mergePassword)
    case Failure(e) => Step(accounts, [], Fail(CannotDecrypt(e)))
    case Success(other) =>
      var merged := Merged(accounts, other, fx.uniqueSuffix(accounts, other));
      Step(merged, [Saved(file, merged)], Pass)
  }

  /**
   * What `executeUserCommand` does when `c` is selected, starting from the table `accounts`
   * stored under `file`: the handler for `c`, and only that handler, takes effect.
   */
  function CommandStep(c: Command, accounts: Accounts, file: string, answers: Answers,
                       fs: FileSystem, fx: Unshown, em: EncryptionManager): Step
    requires Valid(em)
  {
    match c
    case List => ListStep(accounts)
    case New => NewStep(accounts, file, answers)
    case Show => ShowStep(accounts, answers)
    case Update => UpdateStep(accounts, file, answers)
    case Delete => DeleteStep(accounts, file, answers)
    case Dump(f) => DumpStep(accounts, f, fs)
    case Import(f) => ImportStep(accounts, file, f, fs, fx)
    case Rename => RenameStep(accounts, file, answers, fx)
    case Search => SearchStep(accounts, answers)
    case Merge(f) => MergeStep(accounts, file, f, answers, fs, fx, em)
    case NoCommand => Step(accounts, [], Pass)
  }

  /** The step writes nothing to the file. */
  predicate SavesNothing(s: Step)
  {
    forall i :: 0 <= i < |s.shown| ==> !s.shown[i].Saved?
  }

  /** The commands that only show things leave the table alone, save nothing and end normally. */
  lemma ReadOnlyKeepsAccounts(c: Command, accounts: Accounts, file: string, answers: Answers,
                              fs: FileSystem, fx: Unshown, em: EncryptionManager)
    requires Valid(em) && c.ReadOnly()
    ensures var s := CommandStep(c, accounts, file, answers, fs, fx, em);
            && s.accounts == accounts && s.outcome == Pass && SavesNothing(s)
            && (!c.Search? ==> |s.shown| == 1)
  {
    match c
    case List =>
    case Show =>
    case Dump(_) =>
    case Search =>
  }

  /** A command that changes the table saves the new table to the file as its last act. */
  lemma ChangesAreSaved(c: Command, accounts: Accounts, file: string, answers: Answers,
                        fs: FileSystem, fx: Unshown, em: EncryptionManager)
    requires Valid(em)
    ensures var s := CommandStep(c, accounts, file, answers, fs, fx, em);
            s.accounts != accounts ==> s.shown != [] && s.shown[|s.shown| - 1] == Saved(file, s.accounts)
  {
    if c.ReadOnly() {
      ReadOnlyKeepsAccounts(c, accounts, file, answers, fs, fx, em);
    } else if c.New? || c.Update? || c.Delete? {
      EditsAreSaved(c, accounts, file, answers, fs, fx, em);
    } else {
      LoadsAreSaved(c, accounts, file, answers, fs, fx, em);
    }
  }

  /** `ChangesAreSaved` for the commands that edit one account. */
  lemma EditsAreSaved(c: Command, accounts: Accounts, file: string, answers: Answers,
                      fs: FileSystem, fx: Unshown, em: EncryptionManager)
    requires Valid(em) && (c.New? || c.Update? || c.Delete?)
    ensures var s := CommandStep(c, accounts, file, answers, fs, fx, em);
            s.accounts != accounts ==> s.shown != [] && s.shown[|s.shown| - 1] == Saved(file, s.accounts)
  {
    match c
    case New =>
    case Update =>
    case Delete =>
  }

  /** `ChangesAreSaved` for the commands that import, rename, merge, or do nothing. */
  lemma LoadsAreSaved(c: Command, accounts: Accounts, file: string, answers: Answers,
                      fs: FileSystem, fx: Unshown, em: EncryptionManager)
    requires Valid(em) && (c.Import? || c.Rename? || c.Merge? || c.NoCommand?)
    ensures var s := CommandStep(c, accounts, file, answers, fs, fx, em);
            s.accounts != accounts ==> s.shown != [] && s.shown[|s.shown| - 1] == Saved(file, s.accounts)
  {
    match c
    case Import(_) =>
    case Rename =>
    case Merge(_) =>
    case NoCommand =>
  }

  /** A failed command leaves the table alone and saves nothing. */
  lemma FailureChangesNothing(c: Command, accounts: Accounts, file: string, answers: Answers,
                              fs: FileSystem, fx: Unshown, em: EncryptionManager)
    requires Valid(em)
    ensures var s := CommandStep(c, accounts, file, answers, fs, fx, em);
            s.outcome.Fail? ==> s.accounts == accounts && SavesNothing(s)
  {
    match c
    case List =>
    case New =>
    case Show =>
    case Update =>
    case Delete =>
    case Dump(_) =>
    case Import(_) =>
    case Rename =>
    case Search =>
    case Merge(_) =>
    case NoCommand =>
  }

  class SPAManager {
    var container: PasswordContainer
    var events: seq<Event>

    constructor (container: PasswordContainer)
      ensures this.container == container && events == []
    {
      this.container := container;
      events := [];
    }

    /** The container's recorded password, file and manager are those it had before. */
    twostate predicate SameContainer()
      reads this, container
    {
      && container == old(container)
      && container.encryptionManager == old(container.encryptionManager)
      && container.password == old(container.password)
      && container.storageFileName == old(container.storageFileName)
    }

    /** The table is the step's, and the events are the old ones followed by the step's. */
    twostate predicate Took(s: Step)
      reads this, container
    {
      container.properties == s.accounts && events == old(events) + s.shown
    }

    /** `save` on the container, recorded with the table it wrote. */
    method SaveContainer()
      requires container.Ready()
      modifies this
      ensures container == old(container)
      ensures events == old(events) + [Saved(container.storageFileName, container.properties)]
    {
      var saved := Saved(container.storageFileName, container.properties);
      var _ := container.Save();
      events := events + [saved];
    }

    /** `listAllAccounts`: shows every name. */
    method ListAllAccounts()
      modifies this
      ensures AppendsWithoutHelp(old(events), events)
      ensures container == old(container) && unchanged(container)
      ensures Took(ListStep(container.properties))
    {
      events := events + [ShownSet(container.LoadKeys())];
    }

    /** `addAccount(name)`: reads the secret, upserts it and saves. */
    method AddAccountNamed(accountName: string, answers: Answers)
      requires container.Ready()
      modifies this, container
      ensures AppendsWithoutHelp(old(events), events)
      ensures SameContainer() && container.Ready()
      ensures container.properties == old(container.properties)[accountName := answers.accountSecret]
      ensures events == old(events) + [Saved(container.storageFileName, container.properties)]
    {
      container.AddAccount(accountName, answers.accountSecret);
      SaveContainer();
    }

    /** `addAccount()`: reads the name, then as `addAccount(name)`. */
    method AddAccount(answers: Answers)
      requires container.Ready()
      modifies this, container
      ensures AppendsWithoutHelp(old(events), events)
      ensures SameContainer() && container.Ready()
      ensures Took(NewStep(old(container.properties), container.storageFileName, answers))
    {
      AddAccountNamed(answers.accountName, answers);
    }

    /** `showSecret`: the secret of an existing account, an error naming a missing one. */
    method ShowSecret(answers: Answers)
      modifies this
      ensures AppendsWithoutHelp(old(events), events)
      ensures container == old(container) && unchanged(container)
      ensures Took(ShowStep(container.properties, answers))
    {
      var accountName := answers.accountName;
      var secret := container.LoadSecret(accountName);
      if secret.None? {
        events := events + [ShownError(AcctNotFoundMsg + accountName)];
      } else {
        events := events + [Shown(secret.value)];
      }
    }

    /**
     * `modifySecret`: an existing account gets the new secret and is saved; for a
     * missing one the user is asked, and only a yes adds it (and saves).
     */
    method ModifySecret(answers: Answers)
      requires container.Ready()
      modifies this, container
      ensures AppendsWithoutHelp(old(events), events)
      ensures SameContainer() && container.Ready()
      ensures Took(UpdateStep(old(container.properties), container.storageFileName, answers))
    {
      var accountName := answers.accountName;
      if container.DoesAccountExist(accountName) {
        container.Modify(accountName, answers.accountSecret);
        SaveContainer();
      } else {
        events := events + [Shown("Could not find account with name " + accountName + ". Would you like to add it yes/no ? [no]")];
        if answers.yes {
          AddAccountNamed(accountName, answers);
        }
      }
    }

    /** `removeAccount`: an existing account is removed and the file saved; a missing one changes nothing. */
    method RemoveAccount(answers: Answers)
      requires container.Ready()
      modifies this, container
      ensures AppendsWithoutHelp(old(events), events)
      ensures SameContainer() && container.Ready()
      ensures Took(DeleteStep(old(container.properties), container.storageFileName, answers))
    {
      var accountName := answers.accountName;
      if container.DoesAccountExist(accountName) {
        container.Remove(accountName);
        SaveContainer();
      } else {
        events := events + [Shown("Could not locate account " + accountName)];
      }
    }

    /** `dumpAccounts`: refuses a blank name and an existing file; otherwise dumps. */
    method DumpAccounts(fileName: string, fs: FileSystem)
      modifies this
      ensures AppendsWithoutHelp(old(events), events)
      ensures container == old(container) && unchanged(container)
      ensures Took(DumpStep(container.properties, fileName, fs))
    {
      if IsBlank(fileName) {
        events := events + [ShownError("Cannot accept blank file name for dumping accounts.")];
      } else {
        var fProxy := Open(fs, fileName);
        if fProxy.present {
          events := events + [ShownError("It seems that the file " + fileName + " already exists.")];
        } else {
          events := events + [Dumped(fileName)];
        }
      }
    }

    /** `importAccounts`: refuses a blank name and a missing file; otherwise imports and saves. */
    method ImportAccounts(fileName: string, fs: FileSystem, fx: Unshown)
      requires container.Ready()
      modifies this, container
      ensures AppendsWithoutHelp(old(events), events)
      ensures SameContainer() && container.Ready()
      ensures Took(ImportStep(old(container.properties), container.storageFileName, fileName, fs, fx))
    {
      if IsBlank(fileName) {
        events := events + [ShownError("Cannot accept blank file name for importing accounts.")];
      } else {
        var fProxy := Open(fs, fileName);
        if fProxy.present {
          container.ImportAccounts(fProxy, fx.importer);
          SaveContainer();
        } else {
          events := events + [ShownError("Could not locate file " + fileName + " for importing accounts.")];
        }
      }
    }

    /**
     * `renameAccount`: renames and saves only when the old name exists and the new one
     * does not; an existing new name ends the command with `ACCT_ALREADY_EXISTS`.
     */
    method RenameAccount(answers: Answers, fx: Unshown) returns (r: Outcome<Error>)
      requires container.Ready()
      modifies this, container
      ensures AppendsWithoutHelp(old(events), events)
      ensures SameContainer() && container.Ready()
      ensures var s := RenameStep(old(container.properties), container.storageFileName, answers, fx);
              Took(s) && r == s.outcome
    {
      var oldAccountName := answers.accountName;
      if container.DoesAccountExist(oldAccountName) {
        events := events + [Shown("Account " + oldAccountName + " has been located. Please enter the new name.")];
        var newAccountName := ValidateNewName(container.properties, answers.newAccountName);
        if newAccountName.Failure? {
          return Fail(newAccountName.error);
        }
        container.Rename(oldAccountName, newAccountName.value, fx.rename);
        SaveContainer();
        r := Pass;
      } else {
        events := events + [ShownError("Could not find account with name " + oldAccountName + ".")];
        r := Pass;
      }
    }

    /** `searchAccounts`: shows every matching name, in ascending order. */
    method SearchAccounts(answers: Answers)
      modifies this
      ensures AppendsWithoutHelp(old(events), events)
      ensures container == old(container) && unchanged(container)
      ensures Took(SearchStep(container.properties, answers))
    {
      var found := SearchResults(container.LoadKeys(), answers.searchPattern);
      events := events + ShownEach(found);
    }

    /**
     * `mergeFiles`: loads the other file with its own password (a missing or empty file
     * gives no accounts), merges it in and saves. A decryption failure ends the command.
     */
    method MergeFiles(mergeFile: string, fs: FileSystem, answers: Answers, fx: Unshown, em: EncryptionManager)
      returns (r: Outcome<Error>)
      requires container.Ready() && Valid(em) && SuffixesFresh(fx)
      modifies this, container
      ensures AppendsWithoutHelp(old(events), events)
      ensures SameContainer() && container.Ready()
      ensures var s := MergeStep(old(container.properties), container.storageFileName, mergeFile, answers, fs, fx, em);
              Took(s) && r == s.outcome
    {
      var mergeFileProxy := Open(fs, mergeFile);
      var pc := new PasswordContainer();
      var loaded := pc.Init(em, answers.mergePassword, mergeFileProxy);
      if loaded.Fail? {
        return Fail(CannotDecrypt(loaded.error));
      }
      container.MergeFrom(pc, fx.uniqueSuffix(container.properties, pc.properties));
      SaveContainer();
      r := Pass;
    }

    /**
     * `createFile`: with a matching confirmation the file is touched, loaded and saved
     * once; otherwise the command fails with the difference and nothing is touched.
     */
    method CreateFile(targetFile: FileProxy, answers: Answers, em: EncryptionManager) returns (r: Outcome<Error>)
      requires Valid(em) && !targetFile.present
      modifies this, container
      ensures container == old(container)
      ensures answers.spamPassword == answers.confirmation ==>
                && r == Pass && container.Ready()
                && container.properties == map[]
                && container.password == answers.spamPassword
                && container.storageFileName == targetFile.Name()
                && events == old(events) + [Touched(targetFile.path), Saved(targetFile.Name(), map[])]
      ensures answers.spamPassword != answers.confirmation ==>
                && r == Fail(PasswordNotConfirmed("Could not confirm passowrd difference= "
                                                  + Difference(answers.spamPassword, answers.confirmation)))
                && unchanged(container)
                && events == old(events)
    {
      var rootPassword := answers.spamPassword;
      var confirmation := answers.confirmation;
      if rootPassword == confirmation {
        var touched := Touch(targetFile);
        events := events + [Touched(targetFile.path)];
        var _ := container.Init(em, rootPassword, touched);
        SaveContainer();
        r := Pass;
      } else {
        r := Fail(PasswordNotConfirmed("Could not confirm passowrd difference= " + Difference(rootPassword, confirmation)));
      }
    }

    /** `executeUserCommand`: runs the handler `SelectCommand` picks, or none. */
    method ExecuteUserCommand(p: CLIParameters, answers: Answers, fs: FileSystem, fx: Unshown, em: EncryptionManager)
      returns (r: Outcome<Error>)
      requires container.Ready() && Valid(em) && SuffixesFresh(fx)
      modifies this, container
      ensures SameContainer() && container.Ready()
      ensures AppendsWithoutHelp(old(events), events)
      ensures var s := CommandStep(SelectCommand(p), old(container.properties), container.storageFileName, answers, fs, fx, em);
              Took(s) && r == s.outcome
    {
      var command := SelectCommand(p);
      if command.ReadOnly() {
        RunReadOnly(command, answers, fs, fx, em);
        r := Pass;
      } else if command != NoCommand {
        r := RunUpdating(command, answers, fs, fx, em);
      } else {
        r := Pass;
      }
    }

    /** The handlers of the commands that only show things. */
    method RunReadOnly(command: Command, answers: Answers, fs: FileSystem, fx: Unshown, em: EncryptionManager)
      requires command.ReadOnly() && Valid(em)
      modifies this
      ensures container == old(container) && unchanged(container)
      ensures AppendsWithoutHelp(old(events), events)
      ensures var s := CommandStep(command, container.properties, container.storageFileName, answers, fs, fx, em);
              Took(s) && s.outcome == Pass
    {
      if command.List? {
        ListAllAccounts();
      } else if command.Show? {
        ShowSecret(answers);
      } else if command.Search? {
        SearchAccounts(answers);
      } else {
        DumpAccounts(command.fileName, fs);
      }
    }

    /** The handlers of the commands that change the table and save it. */
    method RunUpdating(command: Command, answers: Answers, fs: FileSystem, fx: Unshown, em: EncryptionManager)
      returns (r: Outcome<Error>)
      requires !command.ReadOnly() && command != NoCommand
      requires container.Ready() && Valid(em) && SuffixesFresh(fx)
      modifies this, container
      ensures SameContainer() && container.Ready()
      ensures AppendsWithoutHelp(old(events), events)
      ensures var s := CommandStep(command, old(container.properties), container.storageFileName, answers, fs, fx, em);
              Took(s) && r == s.outcome
    {
      if command.New? || command.Update? || command.Delete? {
        RunEditing(command, answers, fs, fx, em);
        r := Pass;
      } else {
        r := RunLoading(command, answers, fs, fx, em);
      }
    }

    /** The handlers that edit one account the user names. */
    method RunEditing(command: Command, answers: Answers, fs: FileSystem, fx: Unshown, em: EncryptionManager)
      requires command.New? || command.Update? || command.Delete?
      requires container.Ready() && Valid(em)
      modifies this, container
      ensures SameContainer() && container.Ready()
      ensures AppendsWithoutHelp(old(events), events)
      ensures var s := CommandStep(command, old(container.properties), container.storageFileName, answers, fs, fx, em);
              Took(s) && s.outcome == Pass
    {
      if command.New? {
        AddAccount(answers);
      } else if command.Update? {
        ModifySecret(answers);
      } else {
        RemoveAccount(answers);
      }
    }

    /** The handlers that import, rename or merge. */
    method RunLoading(command: Command, answers: Answers, fs: FileSystem, fx: Unshown, em: EncryptionManager)
      returns (r: Outcome<Error>)
      requires command.Import? || command.Rename? || command.Merge?
      requires container.Ready() && Valid(em) && SuffixesFresh(fx)
      modifies this, container
      ensures SameContainer() && container.Ready()
      ensures AppendsWithoutHelp(old(events), events)
      ensures var s := CommandStep(command, old(container.properties), container.storageFileName, answers, fs, fx, em);
              Took(s) && r == s.outcome
    {
      if command.Import? {
        ImportAccounts(command.fileName, fs, fx);
        r := Pass;
      } else if command.Rename? {
        r := RenameAccount(answers, fx);
      } else {
        r := MergeFiles(command.fileName, fs, answers, fx, em);
      }
    }

    /**
     * What `executeWithFile` promises: an existing file is loaded with the user's password
     * and the selected command then runs on the loaded table; a missing file is created
     * and saved empty when asked for and confirmed, and otherwise only reported.
     */
    twostate predicate RanWithFile(p: CLIParameters, file: FileProxy, answers: Answers, fs: FileSystem,
                                   fx: Unshown, em: EncryptionManager, new r: Outcome<Error>)
      requires Valid(em)
      reads this, container
    {
      && container == old(container)
      && AppendsWithoutHelp(old(events), events)
      && (file.present ==>
            && container.password == answers.spamPassword
            && container.storageFileName == file.Name()
            && container.encryptionManager == Some(em)
            && match InitialAccounts(em, file, answers.spamPassword)
               case Failure(e) =>
                 r == Fail(CannotDecrypt(e)) && container.properties == old(container.properties) && events == old(events)
               case Success(loaded) =>
                 var s := CommandStep(SelectCommand(p), loaded, file.Name(), answers, fs, fx, em);
                 Took(s) && r == s.outcome)
      && (!file.present && p.create && answers.spamPassword == answers.confirmation ==>
            && r == Pass && container.Ready()
            && container.properties == map[]
            && container.password == answers.spamPassword
            && container.storageFileName == file.Name()
            && events == old(events) + [Touched(file.path), Saved(file.Name(), map[])])
      && (!file.present && p.create && answers.spamPassword != answers.confirmation ==>
            && r == Fail(PasswordNotConfirmed("Could not confirm passowrd difference= "
                                              + Difference(answers.spamPassword, answers.confirmation)))
            && unchanged(container) && events == old(events))
      && (!file.present && !p.create ==>
            && r == Pass && unchanged(container)
            && events == old(events) + [Shown("Could not locate file " + file.Name())])
    }

    /** `executeWithFile`, on the file the options name. */
    method ExecuteWithFile(p: CLIParameters, file: FileProxy, answers: Answers, fs: FileSystem, fx: Unshown, em: EncryptionManager)
      returns (r: Outcome<Error>)
      requires Valid(em) && SuffixesFresh(fx)
      modifies this, container
      ensures RanWithFile(p, file, answers, fs, fx, em, r)
    {
      if file.present {
        var rootPassoword := answers.spamPassword;
        var loaded := container.Init(em, rootPassoword, file);
        if loaded.Fail? {
          return Fail(CannotDecrypt(loaded.error));
        }
        r := ExecuteUserCommand(p, answers, fs, fx, em);
      } else if p.create {
        r := CreateFile(file, answers, em);
      } else {
        events := events + [Shown("Could not locate file " + file.Name())];
        r := Pass;
      }
    }

    /** `execute`: a non-blank file option runs the command on that file; otherwise help is shown. */
    method Execute(p: CLIParameters, answers: Answers, fs: FileSystem, fx: Unshown, em: EncryptionManager)
      returns (r: Outcome<Error>)
      requires Valid(em) && SuffixesFresh(fx)
      modifies this, container
      ensures container == old(container)
      ensures IsBlankOrNull(p.file) ==> r == Pass && unchanged(container) && events == old(events) + [Help]
      ensures !IsBlankOrNull(p.file) ==> RanWithFile(p, Open(fs, p.file.value), answers, fs, fx, em, r)
    {
      if !IsBlankOrNull(p.file) {
        r := ExecuteWithFile(p, Open(fs, p.file.value), answers, fs, fx, em);
      } else {
        events := events + [Help];
        r := Pass;
      }
    }
  }
}
