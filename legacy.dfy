/** pkg/cert/cert.go: the older descriptor parser and the self-signed CA builder
    `NewCACertKey`. It declares its own `getSubject`, `getKeyUsage`,
    `getSerialNumber`, `containString` and `containsIP` under the same names as
    pkg/cert/common.go, so the two files cannot be compiled into one package; this
    module keeps them apart. The parsers here differ from the common.go ones: no
    trimming, exact (case-sensitive) usage names, a fixed baseline usage, the first
    invalid usage aborts, and a later subject attribute replaces an earlier one. */
module Legacy {
  import opened Wrappers
  import opened Text
  import opened Lists
  import opened X509
  import opened Common
  import opened Issue

  // ---------------------------------------------------------------------------
  // getSubject

  /** The part of a well-formed segment before its '=', untrimmed. */
  function RawKey(seg: string): string
    requires WellFormed(seg)
  {
    Split(seg, '=')[0]
  }

  /** The part of a well-formed segment after its '=', untrimmed. */
  function RawValue(seg: string): string
    requires WellFormed(seg)
  {
    Split(seg, '=')[1]
  }

  predicate RawHas(seg: string, key: string)
  {
    WellFormed(seg) && RawKey(seg) == key
  }

  /** The keys the legacy subject parser knows; there is no "ST". */
  const ListKeys: set<string> := {"C", "S", "L", "O"}

  /** The list-valued attribute a key sets. */
  function Attr(n: Name, key: string): seq<string>
    requires key in ListKeys
  {
    if key == "C" then n.country
    else if key == "S" then n.province
    else if key == "L" then n.locality
    else n.organization
  }

  /** One round of the legacy `getSubject` loop: C, S, L and O replace their list
      by the one value (even an empty one), CN replaces the common name. */
  function LegacySubjectStep(n: Name, seg: string): Name
  {
    if !WellFormed(seg) then n
    else
      var key, val := RawKey(seg), RawValue(seg);
      if key == "C" then n.(country := [val])
      else if key == "S" then n.(province := [val])
      else if key == "L" then n.(locality := [val])
      else if key == "O" then n.(organization := [val])
      else if key == "CN" then n.(commonName := val)
      else n
  }

  function LegacySubjectFold(segs: seq<string>): Name
  {
    if segs == [] then EmptyName
    else LegacySubjectStep(LegacySubjectFold(segs[..|segs| - 1]), segs[|segs| - 1])
  }

  /** What the legacy `getSubject` returns. */
  function LegacySubjectSpec(subject: string): Result<Name>
  {
    var n := LegacySubjectFold(Split(subject, '/'));
    if n.commonName == "" then Err("No Common Name specified in subject") else Ok(n)
  }

  /** The legacy `getSubject`: the fields of `name` are overwritten as the
      segments are read. */
  method GetSubject(subject: string) returns (r: Result<Name>)
    ensures r == LegacySubjectSpec(subject)
  {
    var name := EmptyName;
    var ss := Split(subject, '/');
    for i := 0 to |ss|
      invariant name == LegacySubjectFold(ss[..i])
    {
      assert ss[..i + 1][..i] == ss[..i];
      var info := Split(ss[i], '=');
      if |info| == 2 {
        if info[0] == "C" {
          name := name.(country := [info[1]]);
        } else if info[0] == "S" {
          name := name.(province := [info[1]]);
        } else if info[0] == "L" {
          name := name.(locality := [info[1]]);
        } else if info[0] == "O" {
          name := name.(organization := [info[1]]);
        } else if info[0] == "CN" {
          name := name.(commonName := info[1]);
        }
      }
    }
    assert ss[..|ss|] == ss;
    if name.commonName == "" {
      return Err("No Common Name specified in subject");
    }
    return Ok(name);
  }

  /** The i-th segment is the last well-formed segment with this exact key. */
  ghost predicate IsLastWith(segs: seq<string>, i: int, key: string)
  {
    0 <= i < |segs| && RawHas(segs[i], key) && forall j :: i < j < |segs| ==> !RawHas(segs[j], key)
  }

  /** One step sets a list attribute exactly when the segment has its key. */
  lemma StepAttr(n: Name, seg: string, key: string)
    requires key in ListKeys
    ensures Attr(LegacySubjectStep(n, seg), key) == if RawHas(seg, key) then [RawValue(seg)] else Attr(n, key)
  {
  }

  /** One step sets the common name exactly when the segment is a CN segment. */
  lemma StepCommonName(n: Name, seg: string)
    ensures LegacySubjectStep(n, seg).commonName == if RawHas(seg, "CN") then RawValue(seg) else n.commonName
  {
  }

  /** A later attribute replaces an earlier one: a list attribute holds at most
      one value, the untrimmed value of the last segment with its key, and stays
      empty when no segment has that key. */
  lemma {:induction false} LegacyAttrLast(segs: seq<string>, key: string)
    requires key in ListKeys
    ensures |Attr(LegacySubjectFold(segs), key)| <= 1
    ensures forall i :: IsLastWith(segs, i, key) ==> Attr(LegacySubjectFold(segs), key) == [RawValue(segs[i])]
    ensures (forall i :: 0 <= i < |segs| ==> !RawHas(segs[i], key)) ==> Attr(LegacySubjectFold(segs), key) == []
  {
    if segs != [] {
      var init, seg := segs[..|segs| - 1], segs[|segs| - 1];
      LegacyAttrLast(init, key);
      StepAttr(LegacySubjectFold(init), seg, key);
      forall i | IsLastWith(segs, i, key) ensures Attr(LegacySubjectFold(segs), key) == [RawValue(segs[i])] {
        if i < |init| {
          assert IsLastWith(init, i, key);
        }
      }
      if forall i :: 0 <= i < |segs| ==> !RawHas(segs[i], key) {
        assert forall i :: 0 <= i < |init| ==> init[i] == segs[i];
      }
    }
  }

  /** The common name is the untrimmed value of the last CN segment, or empty when
      there is none. */
  lemma {:induction false} LegacyCommonNameLast(segs: seq<string>)
    ensures forall i :: IsLastWith(segs, i, "CN") ==> LegacySubjectFold(segs).commonName == RawValue(segs[i])
    ensures (forall i :: 0 <= i < |segs| ==> !RawHas(segs[i], "CN")) ==> LegacySubjectFold(segs).commonName == ""
  {
    if segs != [] {
      var init, seg := segs[..|segs| - 1], segs[|segs| - 1];
      LegacyCommonNameLast(init);
      StepCommonName(LegacySubjectFold(init), seg);
      forall i | IsLastWith(segs, i, "CN") ensures LegacySubjectFold(segs).commonName == RawValue(segs[i]) {
        if i < |init| {
          assert IsLastWith(init, i, "CN");
        }
      }
      if forall i :: 0 <= i < |segs| ==> !RawHas(segs[i], "CN") {
        assert forall i :: 0 <= i < |init| ==> init[i] == segs[i];
      }
    }
  }

  lemma {:induction false} LastWithExists(segs: seq<string>, key: string)
    requires exists i :: 0 <= i < |segs| && RawHas(segs[i], key)
    ensures exists i :: IsLastWith(segs, i, key)
  {
    var init, seg := segs[..|segs| - 1], segs[|segs| - 1];
    if RawHas(seg, key) {
      assert IsLastWith(segs, |segs| - 1, key);
    } else {
      var k :| 0 <= k < |segs| && RawHas(segs[k], key);
      assert init[k] == segs[k];
      LastWithExists(init, key);
      var i :| IsLastWith(init, i, key);
      assert IsLastWith(segs, i, key);
    }
  }

  /** The legacy `getSubject` fails exactly when the final common name is empty:
      when no segment is an exact `CN=` segment, or the last one has an empty
      value. On success the common name is that last value. */
  lemma LegacySubjectOutcome(subject: string)
    ensures var segs := Split(subject, '/');
      LegacySubjectSpec(subject).Ok? <==> exists i :: IsLastWith(segs, i, "CN") && RawValue(segs[i]) != ""
    ensures var segs := Split(subject, '/');
      forall i :: IsLastWith(segs, i, "CN") && LegacySubjectSpec(subject).Ok? ==>
        LegacySubjectSpec(subject).value.commonName == RawValue(segs[i])
  {
    var segs := Split(subject, '/');
    LegacyCommonNameLast(segs);
    LegacyCommonNameFound(segs);
  }

  /** The legacy fold ends with a non-empty common name exactly when the last
      exact CN segment has a non-empty value. */
  lemma LegacyCommonNameFound(segs: seq<string>)
    ensures LegacySubjectFold(segs).commonName != "" <==> exists i :: IsLastWith(segs, i, "CN") && RawValue(segs[i]) != ""
  {
    LegacyCommonNameLast(segs);
    if LegacySubjectFold(segs).commonName != "" {
      LastWithExists(segs, "CN");
      var i :| IsLastWith(segs, i, "CN");
      assert IsLastWith(segs, i, "CN") && RawValue(segs[i]) != "";
    }
  }

  lemma LegacySubjectFoldSnoc(segs: seq<string>, seg: string)
    ensures LegacySubjectFold(segs + [seg]) == LegacySubjectStep(LegacySubjectFold(segs), seg)
  {
    assert (segs + [seg])[..|segs|] == segs;
  }

  lemma LegacyStepIgnores(n: Name, seg: string)
    requires !WellFormed(seg) || RawKey(seg) !in {"C", "S", "L", "O", "CN"}
    ensures LegacySubjectStep(n, seg) == n
  {
  }

  /** A segment that is malformed or whose exact key is not C, S, L, O or CN (such
      as "ST", or " CN" with a space) changes nothing, wherever it stands. */
  lemma {:induction false} LegacySubjectIgnores(before: seq<string>, seg: string, after: seq<string>)
    requires !WellFormed(seg) || RawKey(seg) !in {"C", "S", "L", "O", "CN"}
    ensures LegacySubjectFold(before + [seg] + after) == LegacySubjectFold(before + after)
  {
    if after == [] {
      assert before + [] == before;
      assert before + [seg] + [] == before + [seg];
      LegacySubjectFoldSnoc(before, seg);
      LegacyStepIgnores(LegacySubjectFold(before), seg);
    } else {
      var init, last := after[..|after| - 1], after[|after| - 1];
      LegacySubjectIgnores(before, seg, init);
      LegacySubjectFoldSnoc(before + [seg] + init, last);
      LegacySubjectFoldSnoc(before + init, last);
      InsertSnoc(before, seg, after);
    }
  }

  // ---------------------------------------------------------------------------
  // getKeyUsage

  /** `keyUsageMap`: exact names; `certSign` is here, `keyCertSign` is not. */
  const LegacyKeyUsageNames: seq<(string, KeyUsageBit)> := [
    ("digitalSignature", DigitalSignature),
    ("contentCommitment", ContentCommitment),
    ("keyEncipherment", KeyEncipherment),
    ("dataEncipherment", DataEncipherment),
    ("keyAgreement", KeyAgreement),
    ("certSign", CertSign),
    ("cRLSign", CRLSign),
    ("encipherOnly", EncipherOnly),
    ("decipherOnly", DecipherOnly)]

  /** The value of the first entry whose name equals key exactly. */
  function ExactName<V>(table: seq<(string, V)>, key: string): Option<V>
  {
    if table == [] then None
    else if table[0].0 == key then Some(table[0].1)
    else ExactName(table[1..], key)
  }

  /** A lookup finds a value exactly when some entry's name is the key, character
      for character, and then it is that entry's value. */
  lemma {:induction false} ExactNameSound<V>(table: seq<(string, V)>, key: string)
    ensures ExactName(table, key).None? <==> forall i :: 0 <= i < |table| ==> table[i].0 != key
    ensures ExactName(table, key).Some? ==>
              exists i :: 0 <= i < |table| && table[i].0 == key && table[i].1 == ExactName(table, key).value
  {
    if table != [] {
      ExactNameSound(table[1..], key);
      if ExactName(table, key).Some? && table[0].0 != key {
        var i :| 0 <= i < |table| - 1 && table[1..][i].0 == key && table[1..][i].1 == ExactName(table, key).value;
        assert table[i + 1] == table[1..][i];
      }
      if table[0].0 != key {
        assert forall i :: 1 <= i < |table| ==> table[i] == table[1..][i - 1];
      }
    }
  }

  /** A key whose length no name in the table has is not found. */
  lemma {:induction false} ExactNameOtherLength<V>(table: seq<(string, V)>, key: string)
    requires forall i :: 0 <= i < |table| ==> |table[i].0| != |key|
    ensures ExactName(table, key) == None
  {
    if table != [] {
      assert forall i :: 0 <= i < |table| - 1 ==> table[1..][i] == table[i + 1];
      ExactNameOtherLength(table[1..], key);
    }
  }

  /** The inner loop of the legacy `getKeyUsage`: scan the names for an exact match. */
  method FindExact<V>(table: seq<(string, V)>, key: string) returns (found: Option<V>)
    ensures found == ExactName(table, key)
  {
    found := None;
    var i := 0;
    while i < |table|
      invariant 0 <= i <= |table|
      invariant ExactName(table, key) == ExactName(table[i..], key)
    {
      assert table[i..][1..] == table[i + 1..];
      if key == table[i].0 {
        found := Some(table[i].1);
        return;
      }
      i := i + 1;
    }
  }

  function LegacyKeyUsageOf(name: string): Option<KeyUsageBit>
  {
    ExactName(LegacyKeyUsageNames, name)
  }

  /** Matching is exact: of the two spellings the common.go table accepts for the
      certificate-signing bit, only `certSign` is known here. */
  lemma CertSignSpelling()
    ensures LegacyKeyUsageOf("certSign") == Some(CertSign)
    ensures LegacyKeyUsageOf("keyCertSign") == None
  {
    ExactNameOtherLength(LegacyKeyUsageNames, "keyCertSign");
  }

  /** The bits every result carries, what RSA subject keys need. */
  const Baseline: KeyUsage := {DigitalSignature, KeyEncipherment}

  /** A token the loop accepts: empty, or an exact key usage name. */
  predicate Accepted(token: string)
  {
    token == "" || LegacyKeyUsageOf(token).Some?
  }

  /** One round of the loop: skip an empty token, add a known one, abort on the
      first unknown one. */
  function UsageStep(ku: KeyUsage, e: string): Result<KeyUsage>
  {
    if e == "" then Ok(ku)
    else
      match LegacyKeyUsageOf(e)
      case None => Err("Invalid keyUsage: " + e)
      case Some(b) => Ok(ku + {b})
  }

  function UsageFold(tokens: seq<string>): Result<KeyUsage>
  {
    if tokens == [] then Ok(Baseline)
    else
      match UsageFold(tokens[..|tokens| - 1])
      case Err(e) => Err(e)
      case Ok(ku) => UsageStep(ku, tokens[|tokens| - 1])
  }

  /** What the legacy `getKeyUsage` returns. */
  function LegacyKeyUsageSpec(usage: string): Result<KeyUsage>
  {
    UsageFold(Split(usage, ','))
  }

  /** Once the fold has failed, later tokens do not change the error. */
  lemma {:induction false} UsageFoldSticky(tokens: seq<string>, i: nat)
    requires i <= |tokens|
    requires UsageFold(tokens[..i]).Err?
    ensures UsageFold(tokens) == UsageFold(tokens[..i])
  {
    if i < |tokens| {
      var init := tokens[..|tokens| - 1];
      assert init[..i] == tokens[..i];
      UsageFoldSticky(init, i);
      assert tokens[..|tokens|] == tokens;
    } else {
      assert tokens[..i] == tokens;
    }
  }

  /** The legacy `getKeyUsage`: ORs into a baseline and returns at the first
      unknown name. */
  method GetKeyUsage(usage: string) returns (r: Result<KeyUsage>)
    ensures r == LegacyKeyUsageSpec(usage)
  {
    var keyUsage := Baseline;
    var elements := Split(usage, ',');
    for i := 0 to |elements|
      invariant UsageFold(elements[..i]) == Ok(keyUsage)
    {
      assert elements[..i + 1][..i] == elements[..i];
      var e := elements[i];
      if e == "" {
        continue;
      }
      var found := FindExact(LegacyKeyUsageNames, e);
      if found.None? {
        UsageFoldSticky(elements, i + 1);
        return Err("Invalid keyUsage: " + e);
      }
      keyUsage := keyUsage + {found.value};
    }
    assert elements[..|elements|] == elements;
    return Ok(keyUsage);
  }

  predicate AllAccepted(tokens: seq<string>)
  {
    forall i :: 0 <= i < |tokens| ==> Accepted(tokens[i])
  }

  /** The i-th token is the first one the loop rejects. */
  predicate FirstRejected(tokens: seq<string>, i: int)
  {
    0 <= i < |tokens| && !Accepted(tokens[i]) && forall j :: 0 <= j < i ==> Accepted(tokens[j])
  }

  lemma {:induction false} UsageFoldFacts(tokens: seq<string>)
    ensures UsageFold(tokens).Ok? <==> AllAccepted(tokens)
    ensures UsageFold(tokens).Ok? ==>
              forall b :: b in UsageFold(tokens).value <==>
                b in Baseline || exists i :: 0 <= i < |tokens| && tokens[i] != "" && LegacyKeyUsageOf(tokens[i]) == Some(b)
    ensures UsageFold(tokens).Err? ==>
              exists i :: FirstRejected(tokens, i) && UsageFold(tokens).error == "Invalid keyUsage: " + tokens[i]
  {
    if tokens != [] {
      var init, e := tokens[..|tokens| - 1], tokens[|tokens| - 1];
      UsageFoldFacts(init);
      assert forall i :: 0 <= i < |init| ==> init[i] == tokens[i];
      if UsageFold(init).Err? {
        var i :| FirstRejected(init, i) && UsageFold(init).error == "Invalid keyUsage: " + init[i];
        assert FirstRejected(tokens, i);
      } else if !Accepted(e) {
        assert FirstRejected(tokens, |tokens| - 1);
      } else if UsageFold(tokens).Ok? {
        var ku := UsageFold(init).value;
        forall b ensures b in UsageFold(tokens).value <==>
          b in Baseline || exists i :: 0 <= i < |tokens| && tokens[i] != "" && LegacyKeyUsageOf(tokens[i]) == Some(b)
        {
          if b in UsageFold(tokens).value && b !in ku && b !in Baseline {
            assert tokens[|tokens| - 1] != "" && LegacyKeyUsageOf(tokens[|tokens| - 1]) == Some(b);
          }
          if exists i :: 0 <= i < |tokens| && tokens[i] != "" && LegacyKeyUsageOf(tokens[i]) == Some(b) {
            var i :| 0 <= i < |tokens| && tokens[i] != "" && LegacyKeyUsageOf(tokens[i]) == Some(b);
            if i < |init| {
              assert init[i] == tokens[i];
            }
          }
        }
      }
    }
  }

  /** The legacy `getKeyUsage` succeeds exactly when every token is empty or an
      exact name; the result is then the baseline DigitalSignature and
      KeyEncipherment plus exactly the named bits. Otherwise the error names the
      first rejected token and nothing else. */
  lemma LegacyKeyUsageOutcome(usage: string)
    ensures LegacyKeyUsageSpec(usage).Ok? <==> AllAccepted(Split(usage, ','))
    ensures LegacyKeyUsageSpec(usage).Ok? ==> Baseline <= LegacyKeyUsageSpec(usage).value
    ensures var tokens := Split(usage, ',');
      LegacyKeyUsageSpec(usage).Ok? ==>
        forall b :: b in LegacyKeyUsageSpec(usage).value <==>
          b in Baseline || exists i :: 0 <= i < |tokens| && tokens[i] != "" && LegacyKeyUsageOf(tokens[i]) == Some(b)
    ensures var tokens := Split(usage, ',');
      LegacyKeyUsageSpec(usage).Err? ==>
        exists i :: FirstRejected(tokens, i) && LegacyKeyUsageSpec(usage).error == "Invalid keyUsage: " + tokens[i]
  {
    var tokens := Split(usage, ',');
    assert LegacyKeyUsageSpec(usage) == UsageFold(tokens);
    UsageFoldFacts(tokens);
  }

  // ---------------------------------------------------------------------------
  // getAltNames

  /** `AltNames`. */
  datatype AltNames = AltNames(dnsNames: seq<string>, ipAddrs: seq<IP>)

  /** What `getAltNames` returns: the lower-cased comma-separated tokens, neither
      trimmed nor stripped of a prefix, the empty ones skipped, split into DNS names
      and IP addresses without repeats, in first-seen order. */
  function AltNamesSpec(s: string, parseIP: string -> Option<IP>, ipString: IP -> string): AltNames
  {
    var hosts := Split(ToLower(s), ',');
    AltNames(DedupBy(DnsCandidates(hosts, parseIP), Id), DedupBy(IpCandidates(hosts, parseIP), ipString))
  }

  /** `getAltNames`, using the same `containString` and `containsIP` scans as
      common.go (the two files define them identically). */
  method GetAltNames(s: string, parseIP: string -> Option<IP>, ipString: IP -> string) returns (alt: AltNames)
    ensures alt == AltNamesSpec(s, parseIP, ipString)
  {
    var lowered := ToLower(s);
    alt := AltNames([], []);
    var hosts := Split(lowered, ',');
    for i := 0 to |hosts|
      invariant alt.dnsNames == DedupBy(DnsCandidates(hosts[..i], parseIP), Id)
      invariant alt.ipAddrs == DedupBy(IpCandidates(hosts[..i], parseIP), ipString)
    {
      var host := hosts[i];
      PrefixSnoc(hosts, i);
      CandidatesSnoc(hosts[..i], host, parseIP);
      ghost var dc, ic := DnsCandidates(hosts[..i], parseIP), IpCandidates(hosts[..i], parseIP);
      if host == "" {
        assert dc + [] == dc && ic + [] == ic;
        continue;
      }
      var ip := parseIP(host);
      if ip.Some? {
        assert dc + [] == dc;
        DedupBySnoc(ic, ip.value, ipString);
        var present := ContainsIP(alt.ipAddrs, ip.value, ipString);
        if !present {
          alt := alt.(ipAddrs := alt.ipAddrs + [ip.value]);
        }
      } else {
        assert ic + [] == ic;
        DedupBySnoc(dc, host, Id);
        OccursId(alt.dnsNames, host);
        var present := ContainString(alt.dnsNames, host);
        if !present {
          alt := alt.(dnsNames := alt.dnsNames + [host]);
        }
      }
    }
    assert hosts[..|hosts|] == hosts;
  }

  /** Every non-empty lower-cased token lands, verbatim, in exactly one list: among
      the IP addresses (by string form) when it parses as one, among the DNS names
      otherwise. Neither list repeats, and nothing else gets in. */
  lemma AltNamesPartition(s: string, parseIP: string -> Option<IP>, ipString: IP -> string)
    ensures var hosts, alt := Split(ToLower(s), ','), AltNamesSpec(s, parseIP, ipString);
      && NoDupBy(alt.dnsNames, Id) && NoDupBy(alt.ipAddrs, ipString)
      && (forall i :: 0 <= i < |hosts| && hosts[i] != "" && parseIP(hosts[i]).None? ==> hosts[i] in alt.dnsNames)
      && (forall i :: 0 <= i < |hosts| && hosts[i] != "" && parseIP(hosts[i]).Some? ==>
            hosts[i] !in alt.dnsNames && Occurs(alt.ipAddrs, ipString(parseIP(hosts[i]).value), ipString))
      && (forall d :: d in alt.dnsNames ==> d != "" && parseIP(d).None? && d in hosts)
      && (forall a :: a in alt.ipAddrs ==> exists i :: 0 <= i < |hosts| && hosts[i] != "" && parseIP(hosts[i]) == Some(a))
  {
    HostsPartition(Split(ToLower(s), ','), parseIP, ipString);
  }

  // ---------------------------------------------------------------------------
  // NewCACertKey

  /** The template `NewCACertKey` hands to `x509.CreateCertificate`. */
  function CATemplate(serial: nat, subject: Name, keyUsage: KeyUsage, alt: AltNames, now: Time, duration: Duration)
    : Template
  {
    Template(serial, subject, now, now + duration, keyUsage + {CertSign}, [ExtKeyUsageServerAuth], true, true,
             if |alt.dnsNames| != 0 then alt.dnsNames else [ToLower(subject.commonName)], alt.ipAddrs)
  }

  /** Everything `NewCACertKey` prepares before the library creates the
      certificate: the template and the new key, or the first error among key
      generation, the serial draw, the subject and the key usage, in that order.
      `keyDraw` and `serialDraw` are the outcomes of the random key generation and
      of the random serial draw; `now` is the clock reading. */
  function CARequest(duration: Duration, sub: string, san: string, usage: string, keyDraw: Result<PrivateKey>,
                     serialDraw: Result<nat>, now: Time, parseIP: string -> Option<IP>, ipString: IP -> string)
    : Result<(Template, PrivateKey)>
  {
    if keyDraw.Err? then Err(keyDraw.error)
    else if serialDraw.Err? then Err(serialDraw.error)
    else if LegacySubjectSpec(sub).Err? then Err(LegacySubjectSpec(sub).error)
    else if LegacyKeyUsageSpec(usage).Err? then Err(LegacyKeyUsageSpec(usage).error)
    else
      Ok((CATemplate(serialDraw.value, LegacySubjectSpec(sub).value, LegacyKeyUsageSpec(usage).value,
                     AltNamesSpec(san, parseIP, ipString), now, duration), keyDraw.value))
  }

  /** What `NewCACertKey` returns: a self-issued certificate signed by its own new
      key, and that key, both PEM-encoded. */
  function NewCACertKeySpec(duration: Duration, sub: string, san: string, usage: string, keyDraw: Result<PrivateKey>,
                            serialDraw: Result<nat>, now: Time, lib: Lib): Result<(Bytes, Bytes)>
  {
    match CARequest(duration, sub, san, usage, keyDraw, serialDraw, now, lib.parseIP, lib.ipString)
    case Err(e) => Err(e)
    case Ok(req) => Issued(lib, req.0, Itself, lib.publicOf(req.1), req.1, req.1)
  }

  /** The template part of `NewCACertKey`: fixed CA settings first, then the
      alternative names, with the lower-cased common name as the DNS name when
      there is none. */
  method BuildCATemplate(serial: nat, subject: Name, keyUsage: KeyUsage, altNames: AltNames, now: Time,
                         duration: Duration) returns (template: Template)
    ensures template == CATemplate(serial, subject, keyUsage, altNames, now, duration)
  {
    var ku := keyUsage + {CertSign};
    template := Template(serial, subject, now, now + duration, ku, [ExtKeyUsageServerAuth], true, true, [], []);
    if |altNames.ipAddrs| != 0 {
      template := template.(ipAddresses := altNames.ipAddrs);
    }
    if |altNames.dnsNames| != 0 {
      template := template.(dnsNames := altNames.dnsNames);
    } else {
      template := template.(dnsNames := [ToLower(subject.commonName)]);
    }
  }

  /** `NewCACertKey`. */
  method NewCACertKey(duration: Duration, sub: string, san: string, usage: string, keyDraw: Result<PrivateKey>,
                      serialDraw: Result<nat>, now: Time, lib: Lib) returns (r: Result<(Bytes, Bytes)>)
    requires serialDraw.Ok? ==> serialDraw.value < SerialLimit
    ensures r == NewCACertKeySpec(duration, sub, san, usage, keyDraw, serialDraw, now, lib)
  {
    if keyDraw.Err? {
      return Err(keyDraw.error);
    }
    var key := keyDraw.value;
    if serialDraw.Err? {
      return Err(serialDraw.error);
    }
    var subject := GetSubject(sub);
    if subject.Err? {
      return Err(subject.error);
    }
    var keyUsage := GetKeyUsage(usage);
    if keyUsage.Err? {
      return Err(keyUsage.error);
    }
    var altNames := GetAltNames(san, lib.parseIP, lib.ipString);
    var template := BuildCATemplate(serialDraw.value, subject.value, keyUsage.value, altNames, now, duration);
    r := CreateAndEncode(lib, template, Itself, lib.publicOf(key), key, key);
  }

  /** The steps fail in the source's order (key, serial, subject, key usage), and
      on success the template is a CA template: IsCA and BasicConstraintsValid
      set, server authentication as its only extended usage, the parsed key usage
      (baseline included) with CertSign added, valid from `now` for `duration`,
      with the SAN list's DNS names, or the lower-cased common name when the list
      names no host, so at least one DNS name and none empty, and the serial
      below 2^128. */
  lemma CARequestOutcome(duration: Duration, sub: string, san: string, usage: string, keyDraw: Result<PrivateKey>,
                         serialDraw: Result<nat>, now: Time, parseIP: string -> Option<IP>, ipString: IP -> string)
    requires serialDraw.Ok? ==> serialDraw.value < SerialLimit
    ensures var r := CARequest(duration, sub, san, usage, keyDraw, serialDraw, now, parseIP, ipString);
      && (keyDraw.Err? ==> r == Err(keyDraw.error))
      && (keyDraw.Ok? && serialDraw.Err? ==> r == Err(serialDraw.error))
      && (keyDraw.Ok? && serialDraw.Ok? && LegacySubjectSpec(sub).Err? ==> r == Err(LegacySubjectSpec(sub).error))
      && (keyDraw.Ok? && serialDraw.Ok? && LegacySubjectSpec(sub).Ok? && LegacyKeyUsageSpec(usage).Err? ==>
            r == Err(LegacyKeyUsageSpec(usage).error))
      && (r.Ok? <==> keyDraw.Ok? && serialDraw.Ok? && LegacySubjectSpec(sub).Ok? && LegacyKeyUsageSpec(usage).Ok?)
    ensures var r := CARequest(duration, sub, san, usage, keyDraw, serialDraw, now, parseIP, ipString);
      r.Ok? ==>
        var t := r.value.0;
        && r.value.1 == keyDraw.value
        && t.isCA && t.basicConstraintsValid
        && t.extKeyUsage == [ExtKeyUsageServerAuth]
        && Baseline + {CertSign} <= t.keyUsage
        && t.keyUsage == LegacyKeyUsageSpec(usage).value + {CertSign}
        && ValidFor(t, now, duration)
        && t.serialNumber < SerialLimit
        && t.subject == LegacySubjectSpec(sub).value
        && t.ipAddresses == AltNamesSpec(san, parseIP, ipString).ipAddrs
        && |t.dnsNames| >= 1
        && (forall d :: d in t.dnsNames ==> d != "")
        && (AltNamesSpec(san, parseIP, ipString).dnsNames == [] ==> t.dnsNames == [ToLower(t.subject.commonName)])
        && (AltNamesSpec(san, parseIP, ipString).dnsNames != [] ==> t.dnsNames == AltNamesSpec(san, parseIP, ipString).dnsNames)
  {
    var r := CARequest(duration, sub, san, usage, keyDraw, serialDraw, now, parseIP, ipString);
    if r.Ok? {
      KeyUsageHasBaseline(usage);
      CADnsNames(LegacySubjectSpec(sub).value, san, parseIP, ipString);
    }
  }

  lemma KeyUsageHasBaseline(usage: string)
    ensures LegacyKeyUsageSpec(usage).Ok? ==> Baseline <= LegacyKeyUsageSpec(usage).value
  {
    LegacyKeyUsageOutcome(usage);
  }

  /** The DNS names of a CA template are never empty strings, and there is at
      least one, as long as the common name is non-empty. */
  lemma CADnsNames(subject: Name, san: string, parseIP: string -> Option<IP>, ipString: IP -> string)
    requires subject.commonName != ""
    ensures var alt := AltNamesSpec(san, parseIP, ipString);
      var dns := if |alt.dnsNames| != 0 then alt.dnsNames else [ToLower(subject.commonName)];
      |dns| >= 1 && forall d :: d in dns ==> d != ""
  {
    AltNamesPartition(san, parseIP, ipString);
  }

  /** `NewCACertKey` returns the PEM pair exactly when every preparation step
      succeeds and the library creates and encodes the certificate issued by the
      template to itself, for the new key's public half, signed by that key. */
  lemma NewCACertKeyOutcome(duration: Duration, sub: string, san: string, usage: string, keyDraw: Result<PrivateKey>,
                            serialDraw: Result<nat>, now: Time, lib: Lib)
    ensures var req := CARequest(duration, sub, san, usage, keyDraw, serialDraw, now, lib.parseIP, lib.ipString);
      var r := NewCACertKeySpec(duration, sub, san, usage, keyDraw, serialDraw, now, lib);
      && (req.Err? ==> r == Err(req.error))
      && (r.Ok? <==>
            req.Ok? && keyDraw.Ok? && req.value.1 == keyDraw.value
            && lib.createCertificate(req.value.0, Itself, lib.publicOf(keyDraw.value), keyDraw.value).Ok?
            && lib.encode(Block(CertBlockType,
                 lib.createCertificate(req.value.0, Itself, lib.publicOf(keyDraw.value), keyDraw.value).value)).Ok?
            && lib.encode(Block(RSAKeyBlockType, lib.marshalPkcs1(keyDraw.value))).Ok?)
  {
  }
}
