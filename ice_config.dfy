/** The ICE-server configuration helpers of app.js: the comma-separated form
    fields, the server list built from them, the STUN-only restriction used
    during the direct-first phase, and the fallback delay read from its form
    field. */
module IceConfig {
  import opened Wrappers
  import opened JsStrings

  /** The `urls` property of an ICE server entry: one string or an array. */
  datatype Urls = One(url: string) | Many(list: seq<string>)

  /** `{urls, username, credential}`; an absent property is `None`. */
  datatype IceServer = IceServer(urls: Urls, username: Option<string>, credential: Option<string>)

  /** `let currentIceServers = [{ urls: 'stun:stun.l.google.com:19302' }]`. */
  const DefaultIceServers: seq<IceServer> := [IceServer(One("stun:stun.l.google.com:19302"), None, None)]

  const TurnCredentialsRequired := "TURN username and credential are required when TURN URLs are provided"
  const NoServers := "Provide at least one STUN or TURN URL"

  // ------------------------------------------------------------------
  // parseCsv

  /** `pieces.map(s => s.trim())`. */
  function TrimAll(pieces: seq<string>): (r: seq<string>)
    ensures |r| == |pieces|
    ensures forall k :: 0 <= k < |pieces| ==> r[k] == Trim(pieces[k])
    decreases |pieces|
  {
    if |pieces| == 0 then [] else [Trim(pieces[0])] + TrimAll(pieces[1..])
  }

  /** `xs.filter(Boolean)`: the non-empty strings, in their order. */
  function DropEmpty(xs: seq<string>): (r: seq<string>)
    ensures |r| <= |xs|
    ensures forall k :: 0 <= k < |r| ==> r[k] != "" && r[k] in xs
    decreases |xs|
  {
    if |xs| == 0 then [] else (if xs[0] != "" then [xs[0]] else []) + DropEmpty(xs[1..])
  }

  /** `filter(Boolean)` works piece by piece: it distributes over
      concatenation, so the kept pieces stay in their order. */
  lemma {:induction false} DropEmptyConcat(a: seq<string>, b: seq<string>)
    ensures DropEmpty(a + b) == DropEmpty(a) + DropEmpty(b)
    decreases |a|
  {
    if |a| == 0 {
      assert a + b == b;
    } else {
      assert (a + b)[0] == a[0];
      assert (a + b)[1..] == a[1..] + b;
      DropEmptyConcat(a[1..], b);
    }
  }

  /** A piece is kept exactly when it is present and not empty. */
  lemma {:induction false} DropEmptyMembers(xs: seq<string>, x: string)
    ensures x in DropEmpty(xs) <==> x in xs && x != ""
    decreases |xs|
  {
    if |xs| > 0 {
      DropEmptyMembers(xs[1..], x);
      assert xs == [xs[0]] + xs[1..];
    }
  }

  /** A list without empty strings passes `filter(Boolean)` unchanged. */
  lemma {:induction false} DropEmptyAll(xs: seq<string>)
    requires forall k :: 0 <= k < |xs| ==> xs[k] != ""
    ensures DropEmpty(xs) == xs
    decreases |xs|
  {
    if |xs| > 0 {
      DropEmptyAll(xs[1..]);
      assert xs == [xs[0]] + xs[1..];
    }
  }

  /** Trimming pieces that hold no comma leaves trimmed pieces that hold
      none. */
  lemma TrimAllKeepsOut(pieces: seq<string>, c: char)
    requires forall k :: 0 <= k < |pieces| ==> c !in pieces[k]
    ensures forall t :: t in TrimAll(pieces) ==> c !in t && IsTrimmed(t)
  {
    var r := TrimAll(pieces);
    forall k | 0 <= k < |r|
      ensures c !in r[k] && IsTrimmed(r[k])
    {
      TrimKeepsOut(pieces[k], c);
      TrimIsTrimmed(pieces[k]);
    }
  }

  /** `parseCsv(input)`: `split(',')`, `map(s => s.trim())`,
      `filter(Boolean)`. */
  function ParseCsv(input: string): seq<string> {
    DropEmpty(TrimAll(Split(input)))
  }

  /** `map(s => s.trim())` works piece by piece. */
  lemma TrimAllConcat(a: seq<string>, b: seq<string>)
    ensures TrimAll(a + b) == TrimAll(a) + TrimAll(b)
  {
    assert forall k :: 0 <= k < |a + b| ==> (a + b)[k] == if k < |a| then a[k] else b[k - |a|];
  }

  /** A field without a comma is one piece: its trimmed text, or nothing when
      that is empty. */
  lemma ParseCsvPiece(s: string)
    requires ',' !in s
    ensures ParseCsv(s) == if Trim(s) == "" then [] else [Trim(s)]
  {
    SplitPrefix(s, "");
    assert s + "" == s;
    assert Split(s) == [s];
    assert TrimAll([s]) == [Trim(s)];
    assert [Trim(s)][1..] == [];
  }

  /** A comma ends one piece and starts the next: the pieces of `a` come
      first, then those of `b`. With `ParseCsvPiece` this pins `parseCsv`
      down on every input. */
  lemma ParseCsvComma(a: string, b: string)
    ensures ParseCsv(a + "," + b) == ParseCsv(a) + ParseCsv(b)
  {
    SplitComma(a, b);
    TrimAllConcat(Split(a), Split(b));
    DropEmptyConcat(TrimAll(Split(a)), TrimAll(Split(b)));
  }

  /** No element of `parseCsv`'s result is empty, has whitespace at an end,
      or holds a comma. */
  lemma ParseCsvClean(input: string)
    ensures var r := ParseCsv(input);
            forall k :: 0 <= k < |r| ==> r[k] != "" && IsTrimmed(r[k]) && ',' !in r[k]
  {
    TrimAllKeepsOut(Split(input), ',');
  }

  /** Trimming pieces without whitespace at their ends changes none. */
  lemma TrimAllOfClean(xs: seq<string>)
    requires forall k :: 0 <= k < |xs| ==> IsTrimmed(xs[k])
    ensures TrimAll(xs) == xs
  {
    forall k | 0 <= k < |xs| {
      TrimOfTrimmed(xs[k]);
    }
  }

  /** `parseCsv` inverts `join(',')` on lists it could have produced: it
      yields exactly the listed pieces, in order. */
  lemma ParseCsvOfJoin(xs: seq<string>)
    requires forall k :: 0 <= k < |xs| ==> xs[k] != "" && IsTrimmed(xs[k]) && ',' !in xs[k]
    ensures ParseCsv(Join(xs)) == xs
  {
    if |xs| == 0 {
      assert Split("") == [""];
      assert TrimAll([""]) == [""];
    } else {
      SplitJoin(xs);
      TrimAllOfClean(xs);
      DropEmptyAll(xs);
    }
  }

  /** Re-joining what `parseCsv` yields and parsing again changes nothing. */
  lemma ParseCsvIdempotent(input: string)
    ensures ParseCsv(Join(ParseCsv(input))) == ParseCsv(input)
  {
    ParseCsvClean(input);
    ParseCsvOfJoin(ParseCsv(input));
  }

  // ------------------------------------------------------------------
  // buildIceServersFromForm

  /** `parseCsv(stunUrlsInput.value).map(u => ({ urls: u }))`. */
  function StunEntries(urls: seq<string>): (r: seq<IceServer>)
    ensures |r| == |urls|
    ensures forall k :: 0 <= k < |urls| ==> r[k] == IceServer(One(urls[k]), None, None)
    decreases |urls|
  {
    if |urls| == 0 then [] else [IceServer(One(urls[0]), None, None)] + StunEntries(urls[1..])
  }

  /** What `buildIceServersFromForm()` gives for the four form fields: it
      throws when TURN URLs lack a username or credential, and when there are
      no URLs at all; otherwise it gives one `{urls: u}` entry per STUN URL,
      in order, then one entry for all TURN URLs with the trimmed username
      and the credential as typed. */
  predicate FormServers(stunField: string, turnField: string, userField: string, passField: string,
                        r: Result<seq<IceServer>>)
  {
    var stun := ParseCsv(stunField);
    var turn := ParseCsv(turnField);
    var missingCredentials := |turn| > 0 && (Trim(userField) == "" || passField == "");
    && (r.Failure? <==> missingCredentials || (|stun| == 0 && |turn| == 0))
    && (missingCredentials ==> r == Failure(TurnCredentialsRequired))
    && (r.Failure? && !missingCredentials ==> r.error == NoServers)
    && (r.Ok? ==>
          && |r.value| == |stun| + (if |turn| > 0 then 1 else 0)
          && (forall k :: 0 <= k < |stun| ==> r.value[k] == IceServer(One(stun[k]), None, None))
          && (|turn| > 0 ==>
                r.value[|stun|] == IceServer(Many(turn), Some(Trim(userField)), Some(passField))))
  }

  /** `FormServers` leaves no choice: the form fields decide the outcome,
      the message and every entry. */
  lemma FormServersUnique(stunField: string, turnField: string, userField: string, passField: string,
                          r1: Result<seq<IceServer>>, r2: Result<seq<IceServer>>)
    requires FormServers(stunField, turnField, userField, passField, r1)
    requires FormServers(stunField, turnField, userField, passField, r2)
    ensures r1 == r2
  {
    if r1.Ok? {
      var stun := ParseCsv(stunField);
      assert r2.Ok? && |r1.value| == |r2.value|;
      assert forall k :: 0 <= k < |r1.value| ==> r1.value[k] == r2.value[k] by {
        forall k | 0 <= k < |r1.value|
          ensures r1.value[k] == r2.value[k]
        {
          if k < |stun| {
            assert r1.value[k] == IceServer(One(stun[k]), None, None);
          }
        }
      }
      assert r1.value == r2.value;
    }
  }

  /** `buildIceServersFromForm()`, with the four form fields as parameters and
      the thrown `Error` as a `Failure`. */
  method BuildIceServersFromForm(stunField: string, turnField: string, userField: string, passField: string)
    returns (r: Result<seq<IceServer>>)
    ensures FormServers(stunField, turnField, userField, passField, r)
  {
    var stunUrls := ParseCsv(stunField);
    var turnUrls := ParseCsv(turnField);
    var servers := StunEntries(stunUrls);
    if |turnUrls| > 0 {
      var username := Trim(userField);
      var credential := passField;
      if username == "" || credential == "" {
        return Failure(TurnCredentialsRequired);
      }
      servers := servers + [IceServer(Many(turnUrls), Some(username), Some(credential))];
    }
    if |servers| == 0 {
      return Failure(NoServers);
    }
    return Ok(servers);
  }

  // ------------------------------------------------------------------
  // onlyStunServers

  /** `asArray(urls)`. */
  function AsArray(u: Urls): seq<string> {
    match u
    case One(x) => [x]
    case Many(xs) => xs
  }

  /** `{ urls: asArray(s.urls), username: s.username, credential: s.credential }`. */
  function Normalize(s: IceServer): IceServer {
    IceServer(Many(AsArray(s.urls)), s.username, s.credential)
  }

  /** Normalising keeps an entry's URLs, in order, and its credentials, and
      normalising again changes nothing. */
  lemma NormalizeKeepsEntry(s: IceServer)
    ensures AsArray(Normalize(s).urls) == AsArray(s.urls)
    ensures Normalize(s).username == s.username && Normalize(s).credential == s.credential
    ensures Normalize(Normalize(s)) == Normalize(s)
    ensures IsStunOnly(Normalize(s)) <==> IsStunOnly(s)
  {
  }

  /** A URL that, trimmed and lower-cased, starts with `turn:` or `turns:`. */
  predicate IsTurnUrl(u: string) {
    var t := Trim(u);
    LowerStartsWith(t, "turn:") || LowerStartsWith(t, "turns:")
  }

  /** `urls.every(u => !isTurn(u))`: true of an empty array. */
  predicate NoTurnUrl(urls: seq<string>)
    decreases |urls|
  {
    |urls| == 0 || (!IsTurnUrl(urls[0]) && NoTurnUrl(urls[1..]))
  }

  /** `every` holds exactly when no URL is a TURN URL. */
  lemma {:induction false} NoTurnUrlAt(urls: seq<string>)
    ensures NoTurnUrl(urls) <==> forall k :: 0 <= k < |urls| ==> !IsTurnUrl(urls[k])
    decreases |urls|
  {
    if |urls| > 0 {
      NoTurnUrlAt(urls[1..]);
      assert forall k :: 1 <= k < |urls| ==> urls[k] == urls[1..][k - 1];
    }
  }

  /** No URL of the entry is a TURN URL. */
  predicate IsStunOnly(s: IceServer) {
    NoTurnUrl(AsArray(s.urls))
  }

  /** `servers.map(s => ({ urls: asArray(s.urls), ... }))`. */
  function NormalizeAll(servers: seq<IceServer>): (r: seq<IceServer>)
    ensures |r| == |servers|
    ensures forall k :: 0 <= k < |servers| ==> r[k] == Normalize(servers[k])
    decreases |servers|
  {
    if |servers| == 0 then [] else [Normalize(servers[0])] + NormalizeAll(servers[1..])
  }

  /** `.filter(s => s.urls.every(u => !isTurn(u)))`: the entries without a
      TURN URL, in their order. */
  function KeepStunOnly(xs: seq<IceServer>): (r: seq<IceServer>)
    ensures |r| <= |xs|
    ensures forall k :: 0 <= k < |r| ==> r[k] in xs
    decreases |xs|
  {
    if |xs| == 0 then [] else (if IsStunOnly(xs[0]) then [xs[0]] else []) + KeepStunOnly(xs[1..])
  }

  /** `onlyStunServers(servers)`: every entry normalised to an array of URLs,
      then the entries with any TURN URL dropped whole. */
  function OnlyStunServers(servers: seq<IceServer>): (r: seq<IceServer>)
    ensures |r| <= |servers|
  {
    KeepStunOnly(NormalizeAll(servers))
  }

  lemma NormalizeAllConcat(a: seq<IceServer>, b: seq<IceServer>)
    ensures NormalizeAll(a + b) == NormalizeAll(a) + NormalizeAll(b)
  {
    forall k | 0 <= k < |a + b|
      ensures NormalizeAll(a + b)[k] == (NormalizeAll(a) + NormalizeAll(b))[k]
    {
      if k < |a| {
        assert (a + b)[k] == a[k];
      } else {
        assert (a + b)[k] == b[k - |a|];
      }
    }
  }

  lemma {:induction false} KeepStunOnlyConcat(a: seq<IceServer>, b: seq<IceServer>)
    ensures KeepStunOnly(a + b) == KeepStunOnly(a) + KeepStunOnly(b)
    decreases |a|
  {
    if |a| == 0 {
      assert a + b == b;
    } else {
      var head := if IsStunOnly(a[0]) then [a[0]] else [];
      assert KeepStunOnly(a + b) == head + KeepStunOnly(a[1..] + b) by {
        assert (a + b)[0] == a[0];
        assert (a + b)[1..] == a[1..] + b;
      }
      KeepStunOnlyConcat(a[1..], b);
    }
  }

  /** An entry survives the filter exactly when it is present and has no
      TURN URL. */
  lemma {:induction false} KeepStunOnlyMembers(xs: seq<IceServer>, x: IceServer)
    ensures x in KeepStunOnly(xs) <==> x in xs && IsStunOnly(x)
    decreases |xs|
  {
    if |xs| > 0 {
      KeepStunOnlyMembers(xs[1..], x);
      assert xs == [xs[0]] + xs[1..];
    }
  }

  /** One step of the filter on a list that starts with `x`. */
  lemma KeepStunOnlyCons(x: IceServer, xs: seq<IceServer>)
    ensures KeepStunOnly([x] + xs) == (if IsStunOnly(x) then [x] else []) + KeepStunOnly(xs)
  {
    assert ([x] + xs)[0] == x;
    assert ([x] + xs)[1..] == xs;
  }

  /** Entries without a TURN URL pass the filter unchanged. */
  lemma {:induction false} KeepStunOnlyAll(xs: seq<IceServer>)
    requires forall k :: 0 <= k < |xs| ==> IsStunOnly(xs[k])
    ensures KeepStunOnly(xs) == xs
    decreases |xs|
  {
    if |xs| > 0 {
      var x, rest := xs[0], xs[1..];
      assert xs == [x] + rest;
      assert forall k :: 0 <= k < |rest| ==> rest[k] == xs[k + 1];
      KeepStunOnlyAll(rest);
      KeepStunOnlyCons(x, rest);
    }
  }

  /** Every survivor is normalised to an array of URLs and has no TURN URL. */
  lemma OnlyStunServersAreStun(servers: seq<IceServer>)
    ensures forall x :: x in OnlyStunServers(servers) ==> x.urls.Many? && IsStunOnly(x)
  {
    forall x | x in OnlyStunServers(servers)
      ensures x.urls.Many? && IsStunOnly(x)
    {
      OnlyStunMembers(servers, x);
    }
  }

  /** One entry is kept, normalised, exactly when none of its URLs is a TURN
      URL; an entry mixing STUN and TURN URLs is dropped whole. */
  lemma OnlyStunSingle(s: IceServer)
    ensures OnlyStunServers([s]) == if IsStunOnly(s) then [Normalize(s)] else []
    ensures (exists k :: 0 <= k < |AsArray(s.urls)| && IsTurnUrl(AsArray(s.urls)[k])) ==>
              OnlyStunServers([s]) == []
  {
    var normalized := NormalizeAll([s]);
    assert normalized == [Normalize(s)];
    assert normalized[1..] == [];
    NoTurnUrlAt(AsArray(s.urls));
  }

  /** The filter works entry by entry: it distributes over concatenation, so
      the survivors keep their relative order. */
  lemma OnlyStunConcat(a: seq<IceServer>, b: seq<IceServer>)
    ensures OnlyStunServers(a + b) == OnlyStunServers(a) + OnlyStunServers(b)
  {
    NormalizeAllConcat(a, b);
    KeepStunOnlyConcat(NormalizeAll(a), NormalizeAll(b));
  }

  /** The survivors are exactly the normalised input entries without a TURN
      URL. */
  lemma OnlyStunMembers(servers: seq<IceServer>, x: IceServer)
    ensures x in OnlyStunServers(servers) <==>
              IsStunOnly(x) && exists k :: 0 <= k < |servers| && x == Normalize(servers[k])
  {
    var normalized := NormalizeAll(servers);
    KeepStunOnlyMembers(normalized, x);
    if x in normalized {
      var k :| 0 <= k < |normalized| && normalized[k] == x;
    }
    if exists k :: 0 <= k < |servers| && x == Normalize(servers[k]) {
      var k :| 0 <= k < |servers| && x == Normalize(servers[k]);
      assert normalized[k] == x;
    }
  }

  /** Restricting twice is restricting once. */
  lemma OnlyStunIdempotent(servers: seq<IceServer>)
    ensures OnlyStunServers(OnlyStunServers(servers)) == OnlyStunServers(servers)
  {
    var r := OnlyStunServers(servers);
    OnlyStunServersAreStun(servers);
    assert NormalizeAll(r) == r by {
      assert forall k :: 0 <= k < |r| ==> Normalize(r[k]) == r[k];
    }
    KeepStunOnlyAll(r);
  }

  // ------------------------------------------------------------------
  // The fallback delay

  /** `parseInt(fallbackSecInput.value, 10)`, kept when `3 <= sec <= 60` and
      otherwise (including `NaN`) replaced by 8. */
  function FallbackSeconds(field: string): (sec: int)
    ensures 3 <= sec <= 60
  {
    var p := ParseInt(field);
    if p.Some? && 3 <= p.value <= 60 then p.value else 8
  }

  /** A number in range is taken as typed. */
  lemma FallbackInRange(n: nat)
    requires 3 <= n <= 60
    ensures FallbackSeconds(DecimalString(n)) == n
  {
    ParseIntOfDecimal(n);
  }

  /** A number out of range becomes 8; it is not clamped to 3 or 60. */
  lemma FallbackOutOfRange(n: nat)
    requires n < 3 || n > 60
    ensures FallbackSeconds(DecimalString(n)) == 8
  {
    ParseIntOfDecimal(n);
  }

  /** Any negative number gives 8. */
  lemma FallbackNegativeAll(n: nat)
    ensures FallbackSeconds("-" + DecimalString(n)) == 8
  {
    var s := "-" + DecimalString(n);
    assert !IsJsWhitespace(s[0]);
    assert TrimStart(s) == s;
    assert s[1..] == DecimalString(n);
    DigitPrefixOfDigits(DecimalString(n));
  }

  /** 1 gives 8 rather than 3. */
  lemma FallbackBelowRange()
    ensures FallbackSeconds("1") == 8
  {
    assert TrimStart("1") == "1";
    assert DigitPrefix("1") == "1";
    assert DecimalValue("1") == 1;
  }

  /** 120 gives 8 rather than 60. */
  lemma FallbackAboveRange()
    ensures FallbackSeconds("120") == 8
  {
    assert TrimStart("120") == "120";
    assert DigitPrefix("120") == "120" by {
      DigitPrefixOfDigits("120");
    }
    assert DecimalValue("120") == 120 by {
      assert "120"[..2] == "12";
      assert DecimalValue("12") == 12 by {
        assert "12"[..1] == "1";
      }
    }
  }

  /** A field without digits is `NaN` and gives 8. */
  lemma FallbackNoDigits()
    ensures FallbackSeconds("") == 8 && FallbackSeconds("abc") == 8
  {
    assert DigitPrefix("abc") == "";
  }

  /** A negative number gives 8. */
  lemma FallbackNegative()
    ensures FallbackSeconds("-5") == 8
  {
    assert ParseInt("-5") == Some(-5) by {
      assert TrimStart("-5") == "-5";
      assert "-5"[1..] == "5";
      assert DigitPrefix("5") == "5" by {
        DigitPrefixOfDigits("5");
      }
    }
  }

  /** `parseInt` skips leading blanks and stops at the first non-digit. */
  lemma FallbackLenient()
    ensures FallbackSeconds(" 15s") == 15
  {
    assert TrimStart(" 15s") == "15s";
    assert DigitPrefix("15s") == "15";
    assert DecimalValue("15") == 15 by {
      assert "15"[..1] == "1";
    }
  }
}
