/**
 * Start-up configuration (src/config/firebase.ts): the check that every
 * required setting is present, with its fail-fast error, and the admin
 * e-mail allow-list parsed from a comma-separated setting.
 */
module FirebaseConfig {
  import opened Common
  import opened JsStrings

  /** The build environment: setting name to value; an unset setting is absent. */
  type Env = map<string, string>

  /** `import.meta.env[name] || ''`: an unset setting reads as the empty (falsy) string. */
  function Setting(env: Env, name: string): (v: string)
    ensures v == "" <==> name !in env || env[name] == ""
    ensures v != "" ==> v == env[name]
  {
    if name in env then env[name] else ""
  }

  /** The settings initialisation refuses to run without, in the order they are checked. */
  const RequiredEnvVars: seq<string> := [
    "VITE_FIREBASE_API_KEY",
    "VITE_FIREBASE_AUTH_DOMAIN",
    "VITE_FIREBASE_PROJECT_ID",
    "VITE_FIREBASE_STORAGE_BUCKET",
    "VITE_FIREBASE_MESSAGING_SENDER_ID",
    "VITE_FIREBASE_APP_ID"
  ]

  /** Read into the provider configuration, but not required. */
  const MeasurementIdVar: string := "VITE_FIREBASE_MEASUREMENT_ID"

  /** The comma-separated admin allow-list. */
  const AdminEmailsVar: string := "VITE_ADMIN_EMAILS"

  /** The names among `names` whose setting is falsy, keeping their order. */
  function MissingFrom(names: seq<string>, env: Env): (r: seq<string>)
    ensures |r| <= |names|
    ensures forall i :: 0 <= i < |r| ==> Setting(env, r[i]) == ""
  {
    if names == [] then []
    else (if Setting(env, names[0]) == "" then [names[0]] else []) + MissingFrom(names[1..], env)
  }

  /** A name is reported missing exactly when it is listed and its setting is falsy. */
  lemma {:induction false} MissingFromMembers(names: seq<string>, env: Env, x: string)
    ensures x in MissingFrom(names, env) <==> x in names && Setting(env, x) == ""
  {
    if names != [] {
      MissingFromMembers(names[1..], env, x);
      assert names == [names[0]] + names[1..];
    }
  }

  /** Filtering works piecewise, so the missing names come out in the listed order. */
  lemma {:induction false} MissingFromAppend(a: seq<string>, b: seq<string>, env: Env)
    ensures MissingFrom(a + b, env) == MissingFrom(a, env) + MissingFrom(b, env)
  {
    if a != [] {
      assert (a + b)[0] == a[0];
      assert (a + b)[1..] == a[1..] + b;
      MissingFromAppend(a[1..], b, env);
      var head := if Setting(env, a[0]) == "" then [a[0]] else [];
      calc {
        MissingFrom(a + b, env);
        head + MissingFrom(a[1..] + b, env);
        head + (MissingFrom(a[1..], env) + MissingFrom(b, env));
        (head + MissingFrom(a[1..], env)) + MissingFrom(b, env);
        MissingFrom(a, env) + MissingFrom(b, env);
      }
    } else {
      assert a + b == b;
    }
  }

  /** `missingEnvVars`: the required settings that are unset or empty. */
  function MissingEnvVars(env: Env): (r: seq<string>)
    ensures forall x :: x in r <==> x in RequiredEnvVars && Setting(env, x) == ""
    ensures MeasurementIdVar !in r
    ensures r == [] <==> forall x :: x in RequiredEnvVars ==> Setting(env, x) != ""
  {
    var r := MissingFrom(RequiredEnvVars, env);
    forall x ensures x in r <==> x in RequiredEnvVars && Setting(env, x) == "" {
      MissingFromMembers(RequiredEnvVars, env, x);
    }
    assert r != [] ==> r[0] in r;
    r
  }

  const MissingPrefix: string := "Missing required environment variables: "
  const MissingAdvice: string := "Please check your .env file and ensure all Firebase configuration variables are set."

  /**
   * The text of the error thrown when settings are missing: the fixed
   * opening, then the names joined by ", " (see MessageListsMissing), then a
   * line of advice.
   */
  function MissingMessage(missing: seq<string>): (m: string)
    ensures |m| == |MissingPrefix| + |Join(missing, ", ")| + 1 + |MissingAdvice|
    ensures m[..|MissingPrefix|] == MissingPrefix
    ensures m[|MissingPrefix|..|MissingPrefix| + |Join(missing, ", ")|] == Join(missing, ", ")
    ensures m[|m| - |MissingAdvice|..] == MissingAdvice
  {
    MissingPrefix + Join(missing, ", ") + "\n" + MissingAdvice
  }

  /** Keeps the trim of every piece whose trim is not empty, in order. */
  function CleanEntries(pieces: seq<string>): (r: seq<string>)
    ensures |r| <= |pieces|
    ensures forall i :: 0 <= i < |r| ==> r[i] != "" && Trimmed(r[i])
  {
    if pieces == [] then []
    else
      var t := Trim(pieces[0]);
      (if t == "" then [] else [t]) + CleanEntries(pieces[1..])
  }

  /** The entries are exactly the non-empty trims of the pieces. */
  lemma {:induction false} CleanEntriesMembers(pieces: seq<string>, e: string)
    ensures e in CleanEntries(pieces) <==> e != "" && exists j :: 0 <= j < |pieces| && Trim(pieces[j]) == e
  {
    if pieces != [] {
      CleanEntriesMembers(pieces[1..], e);
      if e != "" && Trim(pieces[0]) != e && exists j :: 0 <= j < |pieces| && Trim(pieces[j]) == e {
        var j :| 0 <= j < |pieces| && Trim(pieces[j]) == e;
        assert pieces[1..][j - 1] == pieces[j];
      }
    }
  }

  lemma {:induction false} CleanEntriesAppend(a: seq<string>, b: seq<string>)
    ensures CleanEntries(a + b) == CleanEntries(a) + CleanEntries(b)
  {
    if a != [] {
      assert (a + b)[0] == a[0];
      assert (a + b)[1..] == a[1..] + b;
      CleanEntriesAppend(a[1..], b);
      var t := Trim(a[0]);
      var head := if t == "" then [] else [t];
      calc {
        CleanEntries(a + b);
        head + CleanEntries(a[1..] + b);
        head + (CleanEntries(a[1..]) + CleanEntries(b));
        (head + CleanEntries(a[1..])) + CleanEntries(b);
        CleanEntries(a) + CleanEntries(b);
      }
    } else {
      assert a + b == b;
    }
  }

  /** A character absent from every piece is absent from every entry. */
  lemma {:induction false} CleanEntriesAvoid(pieces: seq<string>, c: char)
    requires forall j :: 0 <= j < |pieces| ==> c !in pieces[j]
    ensures forall i :: 0 <= i < |CleanEntries(pieces)| ==> c !in CleanEntries(pieces)[i]
  {
    if pieces != [] {
      CleanEntriesAvoid(pieces[1..], c);
      TrimKeepsAbsence(pieces[0], c);
    }
  }

  /**
   * `s.split(',').map(trim).filter(e => e.length > 0)`: the allow-list
   * entries of a comma-separated string.
   */
  function EmailList(s: string): (r: seq<string>)
    ensures |r| <= Count(s, ',') + 1
    ensures forall i :: 0 <= i < |r| ==> r[i] != "" && Trimmed(r[i]) && ',' !in r[i]
  {
    var pieces := Split(s, ',');
    CleanEntriesAvoid(pieces, ',');
    CleanEntries(pieces)
  }

  /** `ADMIN_EMAILS`: the allow-list parsed from the setting, empty when it is unset. */
  function AdminEmails(env: Env): (r: seq<string>)
    ensures Setting(env, AdminEmailsVar) == "" ==> r == []
    ensures forall i :: 0 <= i < |r| ==> r[i] != "" && Trimmed(r[i])
  {
    var s := Setting(env, AdminEmailsVar);
    assert s == "" ==> Split(s, ',') == [""] && Trim("") == "";
    EmailList(s)
  }

  /** Every allow-list entry equals its own trim. */
  lemma EntriesAreOwnTrim(env: Env, e: string)
    requires e in AdminEmails(env)
    ensures Trim(e) == e && e != ""
  {
    TrimOfTrimmed(e);
  }

  /** Entries keep the order of the input: text before a comma gives the earlier entries. */
  lemma EmailListAppend(a: string, b: string)
    ensures EmailList(a + [','] + b) == EmailList(a) + EmailList(b)
  {
    SplitAppend(a, ',', b);
    CleanEntriesAppend(Split(a, ','), Split(b, ','));
  }

  /** A leading space before a piece does not change what it contributes. */
  lemma CleanEntriesSkipsSpace(s: string)
    ensures CleanEntries(Split([' '] + s, ',')) == CleanEntries(Split(s, ','))
  {
    var rest := Split(s, ',');
    assert ([' '] + s)[1..] == s;
    var pieces := Split([' '] + s, ',');
    assert pieces == [[' '] + rest[0]] + rest[1..];
    TrimSkipsLeadingWhitespace(' ', rest[0]);
    assert pieces[1..] == rest[1..];
    assert rest == [rest[0]] + rest[1..];
    CleanEntriesAppend([rest[0]], rest[1..]);
    CleanEntriesAppend([pieces[0]], pieces[1..]);
  }

  /** A clean address followed by ", " and more text contributes itself, then the entries of the rest. */
  lemma EmailListCons(e: string, tail: string)
    requires e != "" && Trimmed(e) && ',' !in e
    ensures EmailList(e + [','] + ([' '] + tail)) == [e] + EmailList(tail)
  {
    SplitWithoutSeparator(e, ',');
    TrimOfTrimmed(e);
    assert CleanEntries([e]) == [e];
    SplitAppend(e, ',', [' '] + tail);
    CleanEntriesAppend(Split(e, ','), Split([' '] + tail, ','));
    CleanEntriesSkipsSpace(tail);
  }

  /**
   * Round trip: an allow-list written as "a, b, c" parses back to exactly
   * [a, b, c], provided each entry is non-empty, trimmed and comma-free.
   */
  lemma {:induction false} EmailListOfJoin(emails: seq<string>)
    requires forall i :: 0 <= i < |emails| ==> emails[i] != "" && Trimmed(emails[i]) && ',' !in emails[i]
    ensures EmailList(Join(emails, ", ")) == emails
    decreases |emails|
  {
    if emails == [] {
      assert Trim("") == "";
      assert CleanEntries([""]) == [];
    } else if |emails| == 1 {
      var e := emails[0];
      SplitWithoutSeparator(e, ',');
      TrimOfTrimmed(e);
      assert CleanEntries([e]) == [e];
    } else {
      var e := emails[0];
      var tail := Join(emails[1..], ", ");
      assert Join(emails, ", ") == e + [','] + ([' '] + tail);
      EmailListCons(e, tail);
      EmailListOfJoin(emails[1..]);
      assert [e] + emails[1..] == emails;
    }
  }

  /** The allow-list the application ends up with after a successful initialisation. */
  datatype Firebase = Firebase(adminEmails: seq<string>)

  /**
   * Module initialisation: throws, naming the missing settings, if and only
   * if a required setting is falsy; otherwise the allow-list is parsed.
   */
  function Initialize(env: Env): (r: Result<Firebase, string>)
    ensures r.Failure? <==> exists x :: x in RequiredEnvVars && Setting(env, x) == ""
    ensures r.Failure? ==> r.error == MissingMessage(MissingEnvVars(env))
    ensures r.Success? ==> r.value.adminEmails == AdminEmails(env)
  {
    var missing := MissingEnvVars(env);
    if |missing| > 0 then Failure(MissingMessage(missing))
    else Success(Firebase(AdminEmails(env)))
  }

  /** No required name is empty, has whitespace at its ends, or contains a comma. */
  lemma RequiredNamesArePlain()
    ensures forall x :: x in RequiredEnvVars ==> x != "" && Trimmed(x) && ',' !in x
  {
  }

  /** The error message lists exactly the missing names, in order, joined by ", ". */
  lemma MessageListsMissing(env: Env)
    ensures var missing := MissingEnvVars(env);
            EmailList(Join(missing, ", ")) == missing
  {
    var missing := MissingEnvVars(env);
    RequiredNamesArePlain();
    forall i | 0 <= i < |missing|
      ensures missing[i] != "" && Trimmed(missing[i]) && ',' !in missing[i]
    {
      assert missing[i] in missing;
    }
    EmailListOfJoin(missing);
  }
}
