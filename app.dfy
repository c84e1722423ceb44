/**
 * `AppGUI` without its widgets: the account list, the video list and the
 * worker count it keeps, and the operations behind its buttons. Dialogs and
 * log lines are left out; form fields, the selection and the browser
 * sessions come in as parameters.
 */
module App {
  import opened Wrappers
  import opened Text
  import opened Accounts
  import opened Queues
  import opened Upload
  import opened FileSystem
  import opened Registration

  /** Why `start_upload` stops before any upload starts. */
  datatype StartError = NoAccounts | NoVideos | InvalidWorkers

  class AppGUI {
    /** `self.accounts`, in list order. */
    var accounts: seq<Account>
    /** `self.videos`: the video paths found by the last folder scan. */
    var videos: seq<string>
    /** `self.max_workers`. */
    var maxWorkers: int

    /** A fresh window: no accounts, no videos, five workers. */
    constructor ()
      ensures accounts == [] && videos == [] && maxWorkers == 5
    {
      accounts := [];
      videos := [];
      maxWorkers := 5;
    }

    /**
     * `load_accounts_file`: replaces the list by the records of the
     * accounts file, or by nothing when there is no file.
     */
    method LoadAccounts(disk: Disk)
      modifies this
      ensures accounts == LoadedAccounts(disk.accountsFile)
      ensures videos == old(videos) && maxWorkers == old(maxWorkers)
    {
      accounts := [];
      if disk.accountsFile.Some? {
        var rows := disk.accountsFile.value;
        for i := 0 to |rows|
          invariant accounts == ParseRows(rows[..i])
          invariant videos == old(videos) && maxWorkers == old(maxWorkers)
        {
          var row := rows[i];
          assert rows[..i + 1] == rows[..i] + [row];
          if row == [] {
            continue;
          }
          accounts := accounts + [ParseRow(row).value];
        }
        assert rows[..|rows|] == rows;
      }
    }

    /** `save_accounts_file`: writes one row per record, in list order. */
    method Save(disk: Disk)
      modifies disk
      ensures disk.accountsFile == Some(FormatRows(accounts))
      ensures disk.dirs == old(disk.dirs)
    {
      var rows: seq<Row> := [];
      for i := 0 to |accounts|
        invariant rows == FormatRows(accounts[..i])
      {
        var acc := accounts[i];
        assert accounts[..i + 1] == accounts[..i] + [acc];
        rows := rows + [[acc.profileDir, acc.displayName, acc.captionTemplate]];
      }
      assert accounts[..|accounts|] == accounts;
      disk.WriteAccounts(rows);
    }

    /**
     * `add_account`: with a blank profile nothing changes; otherwise the
     * record made from the stripped fields is appended and the file saved.
     */
    method AddAccount(disk: Disk, profileField: string, displayField: string, captionField: string)
      returns (added: bool)
      modifies this, disk
      ensures added <==> FormAccount(profileField, displayField, captionField).Some?
      ensures added ==> accounts == old(accounts) + [FormAccount(profileField, displayField, captionField).value]
      ensures added ==> disk.accountsFile == Some(FormatRows(accounts))
      ensures !added ==> accounts == old(accounts) && disk.accountsFile == old(disk.accountsFile)
      ensures disk.dirs == old(disk.dirs) && videos == old(videos) && maxWorkers == old(maxWorkers)
    {
      var account := FormAccount(profileField, displayField, captionField);
      if account.None? {
        added := false;
        return;
      }
      accounts := accounts + [account.value];
      Save(disk);
      added := true;
    }

    /**
     * `delete_account`: with nothing selected nothing happens; otherwise
     * every record whose profile is selected is removed and the file saved.
     */
    method DeleteAccounts(disk: Disk, selected: seq<string>)
      modifies this, disk
      ensures accounts == WithoutAll(old(accounts), selected)
      ensures selected == [] ==> disk.accountsFile == old(disk.accountsFile)
      ensures selected != [] ==> disk.accountsFile == Some(FormatRows(accounts))
      ensures disk.dirs == old(disk.dirs) && videos == old(videos) && maxWorkers == old(maxWorkers)
    {
      if selected == [] {
        return;
      }
      for i := 0 to |selected|
        invariant accounts == WithoutAll(old(accounts), selected[..i])
        invariant videos == old(videos) && maxWorkers == old(maxWorkers)
        modifies this
      {
        assert selected[..i + 1] == selected[..i] + [selected[i]];
        accounts := Without(accounts, selected[i]);
      }
      assert selected[..|selected|] == selected;
      Save(disk);
    }

    /**
     * The retry loop of `login_account`, under the root `root`: attempts run
     * until one logs in or `maxRetries` have failed. Each attempt first clears
     * a stale directory at its path; a failed one removes the directory Chrome
     * may have created. Returns the profile directory and display name of the
     * attempt that logged in, if any.
     */
    method RunAttempts(disk: Disk, root: string, timestamp: string, maxRetries: nat, attempts: seq<Attempt>)
      returns (profileDir: Option<string>, displayName: string)
      requires maxRetries <= |attempts|
      modifies disk
      ensures match FirstLogin(attempts, maxRetries)
        case None =>
          && profileDir == None
          && disk.dirs == AfterFailures(old(disk.dirs), root, timestamp, attempts, maxRetries)
        case Some(k) =>
          && profileDir == Some(ProfilePath(root, timestamp, k))
          && displayName == DisplayName(attempts[k].profileUrl, timestamp)
          && disk.dirs == ClearIfExists(AfterFailures(old(disk.dirs), root, timestamp, attempts, k),
                                        ProfilePath(root, timestamp, k)) + {ProfilePath(root, timestamp, k)}
      ensures disk.accountsFile == old(disk.accountsFile)
    {
      var attempt: nat := 0;
      profileDir := None;
      displayName := "";
      while attempt < maxRetries
        invariant attempt <= maxRetries
        invariant profileDir == None
        invariant FirstLogin(attempts, attempt) == None
        invariant disk.dirs == AfterFailures(old(disk.dirs), root, timestamp, attempts, attempt)
        invariant disk.accountsFile == old(disk.accountsFile)
        decreases maxRetries - attempt
      {
        var path := ProfilePath(root, timestamp, attempt);
        if disk.Exists(path) {
          disk.RemoveTree(path);
        }
        assert disk.dirs == ClearIfExists(AfterFailures(old(disk.dirs), root, timestamp, attempts, attempt), path);
        match attempts[attempt]
        case LoggedIn(url) =>
          disk.MakeDir(path);
          profileDir := Some(path);
          var username := StripChars(AfterLast(url, '@'), IsSlash);
          displayName := if username != [] then username else "Account_" + timestamp;
          assert displayName == DisplayName(attempts[attempt].profileUrl, timestamp);
          FirstLoginStable(attempts, attempt, maxRetries);
          return;
        case Failed(created) =>
          if created {
            disk.MakeDir(path);
          }
          attempt := attempt + 1;
          if disk.Exists(path) {
            disk.RemoveTree(path);
          }
          profileDir := None;
      }
    }

    /**
     * `login_account`: makes the temporary root, then runs the attempts.
     * When every attempt fails the list and the file are unchanged and no
     * attempt's directory is left; when attempt `k` logs in, its directory
     * stays and one record for it, named after the profile page, is appended
     * and saved.
     */
    method Login(disk: Disk, tempDir: string, timestamp: string, maxRetries: nat, attempts: seq<Attempt>)
      returns (registered: bool)
      requires maxRetries <= |attempts|
      modifies this, disk
      ensures var root := ProfilesRoot(tempDir);
        match FirstLogin(attempts, maxRetries)
        case None =>
          && !registered
          && accounts == old(accounts)
          && disk.accountsFile == old(disk.accountsFile)
          && disk.dirs == AfterFailures(old(disk.dirs) + {root}, root, timestamp, attempts, maxRetries)
        case Some(k) =>
          && registered
          && accounts == old(accounts) + [Account(ProfilePath(root, timestamp, k),
                                                  DisplayName(attempts[k].profileUrl, timestamp),
                                                  UsernameToken)]
          && disk.accountsFile == Some(FormatRows(accounts))
          && disk.dirs == ClearIfExists(AfterFailures(old(disk.dirs) + {root}, root, timestamp, attempts, k),
                                        ProfilePath(root, timestamp, k)) + {ProfilePath(root, timestamp, k)}
      ensures videos == old(videos) && maxWorkers == old(maxWorkers)
    {
      var root := ProfilesRoot(tempDir);
      disk.MakeDir(root);
      var profileDir, displayName := RunAttempts(disk, root, timestamp, maxRetries, attempts);
      if profileDir.None? {
        registered := false;
        return;
      }
      accounts := accounts + [Account(profileDir.value, displayName, UsernameToken)];
      Save(disk);
      registered := true;
    }

    /**
     * `start_upload` together with the `run_workers` it starts: refuses to
     * start without accounts, without videos or without a worker count of
     * at least one (a count that parses is kept even when it is refused);
     * otherwise pairs accounts with videos, queues the tasks and returns the
     * summary of the run.
     */
    method StartUpload(workersField: Option<int>, session: UploadRequest -> SessionOutcome)
      returns (r: Result<Summary, StartError>)
      modifies this
      ensures accounts == old(accounts) && videos == old(videos)
      ensures accounts == [] ==> r == Failure(NoAccounts) && maxWorkers == old(maxWorkers)
      ensures accounts != [] && videos == [] ==> r == Failure(NoVideos) && maxWorkers == old(maxWorkers)
      ensures accounts != [] && videos != [] && workersField.None? ==>
        r == Failure(InvalidWorkers) && maxWorkers == old(maxWorkers)
      ensures accounts != [] && videos != [] && workersField.Some? ==>
        && maxWorkers == workersField.value
        && (maxWorkers < 1 ==> r == Failure(InvalidWorkers))
        && (maxWorkers >= 1 ==> r == Success(Summarize(ResultsFor(Pairing(accounts, videos), session))))
      ensures r.Success? ==> 1 <= r.value.total == Min(|accounts|, |videos|) && r.value.succeeded <= r.value.total
    {
      if accounts == [] {
        r := Failure(NoAccounts);
        return;
      }
      if videos == [] {
        r := Failure(NoVideos);
        return;
      }
      if workersField.None? {
        r := Failure(InvalidWorkers);
        return;
      }
      maxWorkers := workersField.value;
      if maxWorkers < 1 {
        r := Failure(InvalidWorkers);
        return;
      }
      var tasks := BuildTasks(accounts, videos);
      PairingNonEmpty(accounts, videos);
      // so `start_upload`'s "not enough videos" error can never be raised here
      assert tasks != [];
      var summary := RunUpload(tasks, maxWorkers, session);
      r := Success(summary);
    }
  }
}
