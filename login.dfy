/**
 * What the login flow decides, apart from the browser: where each attempt's
 * profile directory goes, which attempt (if any) logs in, and which display
 * name the logged-in profile page yields.
 */
module Registration {
  import opened Wrappers
  import opened Text
  import opened FileSystem

  /**
   * How one attempt of the retry loop ends: something in it raised (opening
   * Chrome, loading a page, the dialog), possibly after Chrome had already
   * created the profile directory; or it reached the profile page, whose URL
   * is `profileUrl`, Chrome having created the profile directory.
   */
  datatype Attempt = Failed(dirCreated: bool) | LoggedIn(profileUrl: string)

  /** `Path(tempfile.gettempdir()) / "tiktok_profiles"`. */
  function ProfilesRoot(tempDir: string): string
  {
    tempDir + "/tiktok_profiles"
  }

  /** `temp_base / f"profile_{timestamp}_{attempt}"`. */
  function ProfilePath(root: string, timestamp: string, attempt: nat): string
  {
    root + "/profile_" + timestamp + "_" + NatToString(attempt)
  }

  /** Every attempt path lies strictly below the root. */
  lemma ProfilePathBelowRoot(root: string, timestamp: string, attempt: nat)
    ensures |ProfilePath(root, timestamp, attempt)| > |root|
    ensures ProfilePath(root, timestamp, attempt)[..|root|] == root
    ensures ProfilePath(root, timestamp, attempt) != root
  {
    var p := ProfilePath(root, timestamp, attempt);
    assert p == root + ("/profile_" + timestamp + "_" + NatToString(attempt));
  }

  /** Two attempts of one login never share a profile directory. */
  lemma ProfilePathsDistinct(root: string, timestamp: string, j: nat, k: nat)
    requires j != k
    ensures ProfilePath(root, timestamp, j) != ProfilePath(root, timestamp, k)
  {
    var prefix := root + "/profile_" + timestamp + "_";
    if ProfilePath(root, timestamp, j) == ProfilePath(root, timestamp, k) {
      assert (prefix + NatToString(j))[|prefix|..] == NatToString(j);
      assert (prefix + NatToString(k))[|prefix|..] == NatToString(k);
      NatToStringInjective(j, k);
    }
  }

  /** The profile directories of attempts `0 .. n - 1`. */
  function AttemptPaths(root: string, timestamp: string, n: nat): set<string>
  {
    if n == 0 then {} else AttemptPaths(root, timestamp, n - 1) + {ProfilePath(root, timestamp, n - 1)}
  }

  /** A path is among the first `n` attempt paths exactly when it is the path of one of those attempts. */
  lemma {:induction false} AttemptPathsMembers(root: string, timestamp: string, n: nat, p: string)
    ensures p in AttemptPaths(root, timestamp, n) <==> exists k: nat :: k < n && p == ProfilePath(root, timestamp, k)
  {
    if n > 0 {
      AttemptPathsMembers(root, timestamp, n - 1, p);
      if p == ProfilePath(root, timestamp, n - 1) {
        assert exists k: nat :: k < n && p == ProfilePath(root, timestamp, k);
      }
    }
  }

  /** The root itself is never one of the attempt paths. */
  lemma {:induction false} RootNotAttemptPath(root: string, timestamp: string, n: nat)
    ensures root !in AttemptPaths(root, timestamp, n)
  {
    if n > 0 {
      RootNotAttemptPath(root, timestamp, n - 1);
      ProfilePathBelowRoot(root, timestamp, n - 1);
    }
  }

  /** A later attempt's path is not among the paths of the attempts before it. */
  lemma {:induction false} LaterPathFresh(root: string, timestamp: string, n: nat, k: nat)
    requires n <= k
    ensures ProfilePath(root, timestamp, k) !in AttemptPaths(root, timestamp, n)
  {
    if n > 0 {
      LaterPathFresh(root, timestamp, n - 1, k);
      ProfilePathsDistinct(root, timestamp, n - 1, k);
    }
  }

  /** No attempt's path is another attempt's path or lies below it. */
  lemma ProfilePathNotWithin(root: string, timestamp: string, j: nat, k: nat)
    requires j != k
    ensures !Within(ProfilePath(root, timestamp, k), ProfilePath(root, timestamp, j))
  {
    ProfilePathsDistinct(root, timestamp, j, k);
    var pj := ProfilePath(root, timestamp, j);
    var pk := ProfilePath(root, timestamp, k);
    if |pj| < |pk| {
      // just past `pj`, `pk` holds a digit of its attempt number, not a '/'
      var prefix := root + "/profile_" + timestamp + "_";
      assert pk[|pj|] == NatToString(k)[|pj| - |prefix|];
    }
  }

  /** The root is not an attempt's path and does not lie below one. */
  lemma RootNotWithin(root: string, timestamp: string, k: nat)
    ensures !Within(root, ProfilePath(root, timestamp, k))
  {
    ProfilePathBelowRoot(root, timestamp, k);
  }

  /** `if profile_dir.exists(): shutil.rmtree(profile_dir)`: the tree at `p` goes when `p` is there. */
  function ClearIfExists(dirs: set<string>, p: string): (r: set<string>)
    ensures r <= dirs && p !in r
  {
    if p in dirs then Pruned(dirs, p) else dirs
  }

  /**
   * The directories once attempts `0 .. n - 1` have all failed, starting from
   * `dirs`: each attempt clears a stale directory at its path, Chrome may then
   * have created that directory, and the cleanup removes its tree if it is there.
   */
  function AfterFailures(dirs: set<string>, root: string, timestamp: string, attempts: seq<Attempt>, n: nat): set<string>
    requires n <= |attempts|
  {
    if n == 0 then dirs
    else
      var path := ProfilePath(root, timestamp, n - 1);
      var cleared := ClearIfExists(AfterFailures(dirs, root, timestamp, attempts, n - 1), path);
      ClearIfExists(if attempts[n - 1] == Failed(true) then cleared + {path} else cleared, path)
  }

  /**
   * A directory survives `n` failed attempts exactly when it existed and,
   * for every attempt whose tree holds it, that attempt's directory neither
   * existed beforehand nor was created by Chrome.
   */
  lemma {:induction false} AfterFailuresMembers(dirs: set<string>, root: string, timestamp: string, attempts: seq<Attempt>, n: nat, q: string)
    requires n <= |attempts|
    ensures q in AfterFailures(dirs, root, timestamp, attempts, n) <==>
      q in dirs && forall k: nat :: k < n && Within(q, ProfilePath(root, timestamp, k)) ==>
        ProfilePath(root, timestamp, k) !in dirs && attempts[k] != Failed(true)
  {
    if n > 0 {
      var path := ProfilePath(root, timestamp, n - 1);
      var before := AfterFailures(dirs, root, timestamp, attempts, n - 1);
      PrunedMembers(before, path, q);
      PrunedMembers(ClearIfExists(before, path) + {path}, path, q);
      AfterFailuresMembers(dirs, root, timestamp, attempts, n - 1, q);
      AfterFailuresMembers(dirs, root, timestamp, attempts, n - 1, path);
      forall k: nat | k < n - 1
        ensures !Within(path, ProfilePath(root, timestamp, k))
      {
        ProfilePathNotWithin(root, timestamp, k, n - 1);
      }
    }
  }

  /**
   * After `n` failed attempts no attempt's directory is left, nothing new
   * has appeared, and the root is still there.
   */
  lemma AfterFailuresClean(dirs: set<string>, root: string, timestamp: string, attempts: seq<Attempt>, n: nat)
    requires n <= |attempts| && root in dirs
    ensures AfterFailures(dirs, root, timestamp, attempts, n) <= dirs
    ensures AfterFailures(dirs, root, timestamp, attempts, n) !! AttemptPaths(root, timestamp, n)
    ensures root in AfterFailures(dirs, root, timestamp, attempts, n)
  {
    var r := AfterFailures(dirs, root, timestamp, attempts, n);
    forall q | q in r ensures q in dirs && q !in AttemptPaths(root, timestamp, n) {
      AfterFailuresMembers(dirs, root, timestamp, attempts, n, q);
      AttemptPathsMembers(root, timestamp, n, q);
    }
    AfterFailuresMembers(dirs, root, timestamp, attempts, n, root);
    forall k: nat | k < n ensures !Within(root, ProfilePath(root, timestamp, k)) {
      RootNotWithin(root, timestamp, k);
    }
  }

  /**
   * A stale profile directory from a login in the same second, with a
   * directory Chrome made inside it, is removed whole when the one attempt
   * fails, and only the root is left.
   */
  lemma StaleProfileRemoved(root: string, timestamp: string)
    ensures var p0 := ProfilePath(root, timestamp, 0);
      AfterFailures({root, p0, p0 + "/Default"}, root, timestamp, [Failed(false)], 1) == {root}
  {
    var p0 := ProfilePath(root, timestamp, 0);
    var dirs := {root, p0, p0 + "/Default"};
    AfterFailuresClean(dirs, root, timestamp, [Failed(false)], 1);
    AfterFailuresMembers(dirs, root, timestamp, [Failed(false)], 1, p0 + "/Default");
    assert Within(p0 + "/Default", p0);
  }

  /** A character `strip("/")` removes. */
  predicate IsSlash(c: char)
  {
    c == '/'
  }

  /** `profile_url.split("@")[-1].strip("/")`. */
  function Username(profileUrl: string): string
  {
    StripChars(AfterLast(profileUrl, '@'), IsSlash)
  }

  /** `username if username else f"Account_{timestamp}"`. */
  function DisplayName(profileUrl: string, timestamp: string): string
  {
    var u := Username(profileUrl);
    if u != [] then u else "Account_" + timestamp
  }

  /** A username holds no '@' and neither starts nor ends with '/'. */
  lemma UsernameShape(profileUrl: string)
    ensures '@' !in Username(profileUrl)
    ensures Username(profileUrl) == [] || (Username(profileUrl)[0] != '/' && Username(profileUrl)[|Username(profileUrl)| - 1] != '/')
  {
    var after := AfterLast(profileUrl, '@');
    var u := StripChars(after, IsSlash);
    assert Username(profileUrl) == u;
    AfterLastFree(profileUrl, '@');
    StripCharsWithin(after, IsSlash, '@');
    StripCharsShape(after, IsSlash);
    assert u == [] || (!IsSlash(u[0]) && !IsSlash(u[|u| - 1]));
  }

  /**
   * The display name a login stores is the username when there is one and
   * `Account_<timestamp>` otherwise; a username holds no '@' and neither
   * starts nor ends with '/'.
   */
  lemma DisplayNameShape(profileUrl: string, timestamp: string)
    ensures var d := DisplayName(profileUrl, timestamp);
      || (Username(profileUrl) == [] && d == "Account_" + timestamp)
      || (d == Username(profileUrl) && d != [] && '@' !in d && d[0] != '/' && d[|d| - 1] != '/')
  {
    UsernameShape(profileUrl);
  }

  /** The profile page `…/@name/` gives the display name `name`. */
  lemma DisplayNameOfProfileUrl(prefix: string, name: string, timestamp: string)
    requires name != [] && '@' !in name && name[0] != '/' && name[|name| - 1] != '/'
    ensures DisplayName(prefix + "@" + name + "/", timestamp) == name
  {
    var tail := name + "/";
    assert prefix + "@" + name + "/" == prefix + ['@'] + tail;
    AfterLastConcat(prefix, '@', tail);
    StripCharsTrailing(name, '/', IsSlash);
  }

  /** A profile page ending in `@` or `@/` has an empty username, so the fallback name is used. */
  lemma DisplayNameFallback(prefix: string, timestamp: string)
    ensures DisplayName(prefix + "@/", timestamp) == "Account_" + timestamp
    ensures DisplayName(prefix + "@", timestamp) == "Account_" + timestamp
  {
    assert prefix + "@/" == prefix + ['@'] + "/";
    AfterLastConcat(prefix, '@', "/");
    assert prefix + "@" == prefix + ['@'] + [];
    AfterLastConcat(prefix, '@', []);
  }

  /**
   * A URL without any '@' (a page that is not a profile) is taken whole, less
   * its leading and trailing slashes, as the username.
   */
  lemma UsernameWithoutAt(url: string)
    requires '@' !in url
    ensures Username(url) == StripChars(url, IsSlash)
  {
    RFindAbsent(url, '@');
    assert url[0..] == url;
  }

  /**
   * The attempt that logs in, if one of the first `n` does: the first
   * `LoggedIn`, every attempt before it having failed.
   */
  function FirstLogin(attempts: seq<Attempt>, n: nat): (r: Option<nat>)
    requires n <= |attempts|
    ensures r.Some? ==> r.value < n && attempts[r.value].LoggedIn?
    ensures r.Some? ==> forall j :: 0 <= j < r.value ==> attempts[j].Failed?
    ensures r.None? <==> forall j :: 0 <= j < n ==> attempts[j].Failed?
  {
    if n == 0 then None
    else
      match FirstLogin(attempts, n - 1)
      case Some(k) => Some(k)
      case None => if attempts[n - 1].LoggedIn? then Some(n - 1) else None
  }

  /** Once an attempt has logged in, looking at more attempts does not change which one did. */
  lemma {:induction false} FirstLoginStable(attempts: seq<Attempt>, k: nat, n: nat)
    requires k < n <= |attempts|
    requires FirstLogin(attempts, k + 1) == Some(k)
    ensures FirstLogin(attempts, n) == Some(k)
    decreases n
  {
    if n > k + 1 {
      FirstLoginStable(attempts, k, n - 1);
    }
  }
}
