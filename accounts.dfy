/**
 * Account records and the three list operations on them: turning CSV rows
 * into records (`load_accounts_file`), records into rows
 * (`save_accounts_file`), and removing every record with a given profile
 * directory (`delete_account`). Rows are lists of fields; the CSV byte
 * format itself belongs to Python's `csv` module.
 */
module Accounts {
  import opened Wrappers
  import opened Text

  /** One entry of `AppGUI.accounts`. */
  datatype Account = Account(profileDir: string, displayName: string, captionTemplate: string)

  /** One CSV record, as `csv.reader` yields it and `csv.writer` takes it. */
  type Row = seq<string>

  /** The caption placeholder that the worker replaces by the video's stem. */
  const FilenameToken: string := "{filename}"

  /** The caption template given to accounts made by hand or by login. */
  const UsernameToken: string := "{username}"

  /** Every field of the record is already whitespace-stripped. */
  predicate AccountStripped(a: Account)
  {
    Stripped(a.profileDir) && Stripped(a.displayName) && Stripped(a.captionTemplate)
  }

  /** Neither brace of a placeholder is whitespace. */
  lemma BracesNotWhitespace()
    ensures !IsWhitespace('{') && !IsWhitespace('}')
  {
  }

  /** `{filename}` is its own strip. */
  lemma FilenameTokenStripped()
    ensures Stripped(FilenameToken)
  {
    BracesNotWhitespace();
    assert FilenameToken[0] == '{' && FilenameToken[|FilenameToken| - 1] == '}';
    StripCharsUnchanged(FilenameToken, IsWhitespace);
  }

  /** `{username}` is its own strip. */
  lemma UsernameTokenStripped()
    ensures Stripped(UsernameToken)
  {
    BracesNotWhitespace();
    assert UsernameToken[0] == '{' && UsernameToken[|UsernameToken| - 1] == '}';
    StripCharsUnchanged(UsernameToken, IsWhitespace);
  }

  /** Both caption placeholders are their own strip. */
  lemma TokensStripped()
    ensures Stripped(FilenameToken) && Stripped(UsernameToken)
  {
    FilenameTokenStripped();
    UsernameTokenStripped();
  }

  // ---------------------------------------------------------------- load

  /**
   * The record one CSV row loads as: an empty row is skipped; otherwise the
   * fields are stripped, a missing display name falls back to the profile
   * and a missing caption template to `{filename}`; fields past the third
   * are ignored.
   */
  function ParseRow(row: Row): (r: Option<Account>)
    ensures r.None? <==> row == []
    ensures r.Some? && |row| < 2 ==> r.value.displayName == r.value.profileDir
    ensures r.Some? && |row| < 3 ==> r.value.captionTemplate == FilenameToken
  {
    if row == [] then None
    else
      var profile := Strip(row[0]);
      var display := if |row| > 1 then Strip(row[1]) else profile;
      var caption := if |row| > 2 then Strip(row[2]) else FilenameToken;
      Some(Account(profile, display, caption))
  }

  /** Every field of a loaded record is whitespace-stripped. */
  lemma ParseRowStripped(row: Row)
    requires row != []
    ensures AccountStripped(ParseRow(row).value)
  {
    TokensStripped();
    StripStripped(row[0]);
    if |row| > 1 {
      StripStripped(row[1]);
    }
    if |row| > 2 {
      StripStripped(row[2]);
    }
  }

  /** Fields past the third do not change the record a row loads as. */
  lemma ParseRowIgnoresExtraFields(row: Row)
    requires |row| > 3
    ensures ParseRow(row) == ParseRow(row[..3])
  {
  }

  /** The records a whole file of rows loads as, in file order. */
  function ParseRows(rows: seq<Row>): (accs: seq<Account>)
    ensures |accs| <= |rows|
    decreases |rows|
  {
    if rows == [] then []
    else
      var last := rows[|rows| - 1];
      ParseRows(rows[..|rows| - 1]) + (if last == [] then [] else [ParseRow(last).value])
  }

  /** What loading yields when the accounts file is present or missing. */
  function LoadedAccounts(file: Option<seq<Row>>): seq<Account>
  {
    match file
    case None => []
    case Some(rows) => ParseRows(rows)
  }

  // ---------------------------------------------------------------- save

  /** The row a record is saved as: profile, display name, caption template. */
  function FormatRow(a: Account): Row
  {
    [a.profileDir, a.displayName, a.captionTemplate]
  }

  /** The rows a list of records is saved as, one per record, in list order. */
  function FormatRows(accs: seq<Account>): seq<Row>
    decreases |accs|
  {
    if accs == [] then [] else FormatRows(accs[..|accs| - 1]) + [FormatRow(accs[|accs| - 1])]
  }

  /** A saved record whose fields are already stripped loads back unchanged. */
  lemma ParseFormatRow(a: Account)
    requires AccountStripped(a)
    ensures ParseRow(FormatRow(a)) == Some(a)
  {
  }

  /** Loading rows followed by a non-empty row appends that row's record. */
  lemma ParseRowsSnoc(rows: seq<Row>, row: Row)
    requires row != []
    ensures ParseRows(rows + [row]) == ParseRows(rows) + [ParseRow(row).value]
  {
    assert (rows + [row])[..|rows|] == rows;
  }

  /**
   * Loading what saving wrote gives back the same records in the same order,
   * provided every field was already whitespace-stripped.
   */
  lemma {:induction false} LoadSaveRoundTrip(accs: seq<Account>)
    requires forall a :: a in accs ==> AccountStripped(a)
    ensures ParseRows(FormatRows(accs)) == accs
    decreases |accs|
  {
    if accs != [] {
      var init := accs[..|accs| - 1];
      var last := accs[|accs| - 1];
      assert accs == init + [last];
      assert FormatRows(accs) == FormatRows(init) + [FormatRow(last)];
      LoadSaveRoundTrip(init);
      ParseFormatRow(last);
      ParseRowsSnoc(FormatRows(init), FormatRow(last));
    }
  }

  /** Every record loaded from a file has its fields whitespace-stripped. */
  lemma {:induction false} ParseRowsStripped(rows: seq<Row>)
    ensures forall a :: a in ParseRows(rows) ==> AccountStripped(a)
    decreases |rows|
  {
    if rows != [] {
      ParseRowsStripped(rows[..|rows| - 1]);
      var last := rows[|rows| - 1];
      if last != [] {
        ParseRowStripped(last);
      }
    }
  }

  /** Everything `ParseRows` yields survives a save followed by a load. */
  lemma LoadSaveLoad(rows: seq<Row>)
    ensures ParseRows(FormatRows(ParseRows(rows))) == ParseRows(rows)
  {
    ParseRowsStripped(rows);
    LoadSaveRoundTrip(ParseRows(rows));
  }

  // ---------------------------------------------------------------- delete

  /**
   * `[a for a in accs if a["profile_dir"] != key]`: the records are kept
   * exactly when their profile directory differs from `key`.
   */
  function Without(accs: seq<Account>, key: string): (r: seq<Account>)
    ensures forall a :: a in r <==> a in accs && a.profileDir != key
    ensures |r| <= |accs|
    decreases |accs|
  {
    if accs == [] then []
    else (if accs[0].profileDir == key then [] else [accs[0]]) + Without(accs[1..], key)
  }

  /** Filtering distributes over concatenation, so kept records keep their relative order. */
  lemma {:induction false} WithoutConcat(a: seq<Account>, b: seq<Account>, key: string)
    ensures Without(a + b, key) == Without(a, key) + Without(b, key)
    decreases |a|
  {
    if a != [] {
      assert (a + b)[1..] == a[1..] + b;
      WithoutConcat(a[1..], b, key);
    } else {
      assert a + b == b;
    }
  }

  /** A list without any record for `key` is left exactly as it is. */
  lemma {:induction false} WithoutAbsent(accs: seq<Account>, key: string)
    requires forall a :: a in accs ==> a.profileDir != key
    ensures Without(accs, key) == accs
    decreases |accs|
  {
    if accs != [] {
      WithoutAbsent(accs[1..], key);
      assert accs == [accs[0]] + accs[1..];
    }
  }

  /** Deleting the same profile twice is deleting it once. */
  lemma WithoutIdempotent(accs: seq<Account>, key: string)
    ensures Without(Without(accs, key), key) == Without(accs, key)
  {
    WithoutAbsent(Without(accs, key), key);
  }

  /** Deleting two profiles gives the same list in either order. */
  lemma {:induction false} WithoutCommutes(accs: seq<Account>, k1: string, k2: string)
    ensures Without(Without(accs, k1), k2) == Without(Without(accs, k2), k1)
    decreases |accs|
  {
    if accs != [] {
      var head := accs[..1];
      assert accs == head + accs[1..];
      WithoutConcat(head, accs[1..], k1);
      WithoutConcat(head, accs[1..], k2);
      WithoutConcat(Without(head, k1), Without(accs[1..], k1), k2);
      WithoutConcat(Without(head, k2), Without(accs[1..], k2), k1);
      WithoutCommutes(accs[1..], k1, k2);
      assert Without(Without(head, k1), k2) == Without(Without(head, k2), k1) by {
        assert head[1..] == [];
      }
    }
  }

  /** The list left after deleting each selected profile in turn. */
  function WithoutAll(accs: seq<Account>, keys: seq<string>): seq<Account>
    decreases |keys|
  {
    if keys == [] then accs
    else Without(WithoutAll(accs, keys[..|keys| - 1]), keys[|keys| - 1])
  }

  /** After deleting a selection, exactly the records whose profile was not selected remain. */
  lemma {:induction false} WithoutAllMembers(accs: seq<Account>, keys: seq<string>, a: Account)
    ensures a in WithoutAll(accs, keys) <==> a in accs && a.profileDir !in keys
    decreases |keys|
  {
    if keys != [] {
      var init := keys[..|keys| - 1];
      WithoutAllMembers(accs, init, a);
      assert keys == init + [keys[|keys| - 1]];
    }
  }

  // ---------------------------------------------------------------- add

  /**
   * The record `add_account` builds from the three form fields, or None when
   * the stripped profile is empty. A built record has every field stripped
   * and none of them empty: a blank display name falls back to the profile,
   * a blank caption to `{username}`.
   */
  function FormAccount(profile: string, display: string, caption: string): (r: Option<Account>)
    ensures r.None? <==> Strip(profile) == []
    ensures r.Some? ==> r.value.profileDir != [] && r.value.displayName != [] && r.value.captionTemplate != []
    ensures r.Some? && Strip(display) == [] ==> r.value.displayName == r.value.profileDir
    ensures r.Some? && Strip(caption) == [] ==> r.value.captionTemplate == UsernameToken
  {
    var p := Strip(profile);
    var d := if Strip(display) != [] then Strip(display) else p;
    var c := if Strip(caption) != [] then Strip(caption) else UsernameToken;
    if p == [] then None else Some(Account(p, d, c))
  }

  /** A record made from the form has every field whitespace-stripped. */
  lemma FormAccountStripped(profile: string, display: string, caption: string)
    requires Strip(profile) != []
    ensures AccountStripped(FormAccount(profile, display, caption).value)
  {
    TokensStripped();
    StripStripped(profile);
    StripStripped(display);
    StripStripped(caption);
  }
}
