/** The certificate descriptor parser of pkg/cert/common.go: subject lines,
    key usage and extended key usage lists, subject alternative names, the
    `CertInfo` record built from them, and the PEM dispatch of `ParseCerts`,
    `ParseCert` and `ParseKey`. Each parser that loops in the source is a method
    proved against a specification function, and the lemmas below state what the
    specification functions promise. */
module Common {
  import opened Wrappers
  import opened Text
  import opened Lists
  import opened X509

  // ---------------------------------------------------------------------------
  // Name tables

  /** `kuStringToAction`: key usage names, with `certSign` an alias of `keyCertSign`. */
  const KeyUsageNames: seq<(string, KeyUsageBit)> := [
    ("digitalSignature", DigitalSignature),
    ("contentCommitment", ContentCommitment),
    ("keyEncipherment", KeyEncipherment),
    ("dataEncipherment", DataEncipherment),
    ("keyAgreement", KeyAgreement),
    ("keyCertSign", CertSign),
    ("certSign", CertSign),
    ("cRLSign", CRLSign),
    ("encipherOnly", EncipherOnly),
    ("decipherOnly", DecipherOnly)]

  /** `ekuStringToAction`: the fourteen extended key usage names. */
  const ExtKeyUsageNames: seq<(string, ExtKeyUsage)> := [
    ("any", ExtKeyUsageAny),
    ("serverAuth", ExtKeyUsageServerAuth),
    ("clientAuth", ExtKeyUsageClientAuth),
    ("codeSigning", ExtKeyUsageCodeSigning),
    ("emailProtection", ExtKeyUsageEmailProtection),
    ("IPSECEndSystem", ExtKeyUsageIPSECEndSystem),
    ("IPSECTunnel", ExtKeyUsageIPSECTunnel),
    ("IPSECUser", ExtKeyUsageIPSECUser),
    ("timeStamping", ExtKeyUsageTimeStamping),
    ("OCSPSigning", ExtKeyUsageOCSPSigning),
    ("netscapeServerGatedCrypto", ExtKeyUsageNetscapeServerGatedCrypto),
    ("microsoftServerGatedCrypto", ExtKeyUsageMicrosoftServerGatedCrypto),
    ("microsoftCommercialCodeSigning", ExtKeyUsageMicrosoftCommercialCodeSigning),
    ("microsoftKernelCodeSigning", ExtKeyUsageMicrosoftKernelCodeSigning)]

  /** The entry of a name table whose name equals key up to ASCII case. */
  function LookupName<V>(table: seq<(string, V)>, key: string): Option<V>
  {
    if table == [] then None
    else if ToLower(table[0].0) == ToLower(key) then Some(table[0].1)
    else LookupName(table[1..], key)
  }

  /** The inner loop of `getKeyUsage` and `getExtKeyUsage`: scan the table and
      stop at the first name that matches case-insensitively. */
  method FindName<V>(table: seq<(string, V)>, key: string) returns (found: Option<V>)
    ensures found == LookupName(table, key)
  {
    found := None;
    var i := 0;
    while i < |table|
      invariant 0 <= i <= |table|
      invariant LookupName(table, key) == LookupName(table[i..], key)
    {
      assert table[i..][1..] == table[i + 1..];
      if ToLower(key) == ToLower(table[i].0) {
        found := Some(table[i].1);
        return;
      }
      i := i + 1;
    }
  }

  /** A lookup finds a value exactly when some entry's name matches the key up to
      case, and then it is that entry's value. */
  lemma {:induction false} LookupNameSound<V>(table: seq<(string, V)>, key: string)
    ensures LookupName(table, key).None? <==>
              forall i :: 0 <= i < |table| ==> ToLower(table[i].0) != ToLower(key)
    ensures LookupName(table, key).Some? ==>
              exists i :: 0 <= i < |table| && ToLower(table[i].0) == ToLower(key)
                          && table[i].1 == LookupName(table, key).value
  {
    if table != [] {
      LookupNameSound(table[1..], key);
      if LookupName(table, key).Some? && ToLower(table[0].0) != ToLower(key) {
        var i :| 0 <= i < |table| - 1 && ToLower(table[1..][i].0) == ToLower(key)
                 && table[1..][i].1 == LookupName(table, key).value;
        assert table[i + 1] == table[1..][i];
      }
      if ToLower(table[0].0) != ToLower(key) {
        assert forall i :: 1 <= i < |table| ==> table[i] == table[1..][i - 1];
      }
    }
  }

  /** Matching ignores ASCII case: keys that lower-case alike find the same entry. */
  lemma {:induction false} LookupNameIgnoresCase<V>(table: seq<(string, V)>, k1: string, k2: string)
    requires ToLower(k1) == ToLower(k2)
    ensures LookupName(table, k1) == LookupName(table, k2)
  {
    if table != [] {
      LookupNameIgnoresCase(table[1..], k1, k2);
    }
  }

  /** No two names of the table lower-case alike. */
  predicate DistinctUpToCase<V>(table: seq<(string, V)>)
  {
    forall i, j :: 0 <= i < j < |table| ==> ToLower(table[i].0) != ToLower(table[j].0)
  }

  /** In a table whose names are distinct up to case, a key matching an entry's
      name finds that entry wherever it stands, so the scan order is immaterial. */
  lemma {:induction false} LookupNameUnique<V>(table: seq<(string, V)>, key: string, i: nat)
    requires DistinctUpToCase(table)
    requires i < |table| && ToLower(table[i].0) == ToLower(key)
    ensures LookupName(table, key) == Some(table[i].1)
  {
    if i > 0 {
      assert ToLower(table[0].0) != ToLower(key);
      assert DistinctUpToCase(table[1..]) by {
        forall a, b | 0 <= a < b < |table| - 1
          ensures ToLower(table[1..][a].0) != ToLower(table[1..][b].0)
        {
          assert table[1..][a] == table[a + 1] && table[1..][b] == table[b + 1];
        }
      }
      LookupNameUnique(table[1..], key, i - 1);
    }
  }

  /** Two names lower-case differently when their lengths differ, or when the
      characters at place `k` lower-case differently. */
  lemma LowerDiffers(a: string, b: string, k: nat)
    requires |a| != |b| || (k < |a| && k < |b| && LowerChar(a[k]) != LowerChar(b[k]))
    ensures ToLower(a) != ToLower(b)
  {
    if |a| == |b| {
      assert ToLower(a)[k] != ToLower(b)[k];
    }
  }

  /** The key usage names, `certSign` and `keyCertSign` included, are distinct up
      to case: the names of equal length differ in their first or second letter. */
  lemma KeyUsageNamesDistinct()
    ensures DistinctUpToCase(KeyUsageNames)
  {
    forall i, j | 0 <= i < j < |KeyUsageNames|
      ensures ToLower(KeyUsageNames[i].0) != ToLower(KeyUsageNames[j].0)
    {
      var a, b := KeyUsageNames[i].0, KeyUsageNames[j].0;
      if |a| != |b| || LowerChar(a[0]) != LowerChar(b[0]) {
        LowerDiffers(a, b, 0);
      } else {
        LowerDiffers(a, b, 1);
      }
    }
  }

  /** The fourteen extended key usage names are distinct up to case: the names of
      equal length differ in their first or tenth letter. */
  lemma ExtKeyUsageNamesDistinct()
    ensures DistinctUpToCase(ExtKeyUsageNames)
  {
    forall i, j | 0 <= i < j < |ExtKeyUsageNames|
      ensures ToLower(ExtKeyUsageNames[i].0) != ToLower(ExtKeyUsageNames[j].0)
    {
      var a, b := ExtKeyUsageNames[i].0, ExtKeyUsageNames[j].0;
      if |a| != |b| || LowerChar(a[0]) != LowerChar(b[0]) {
        LowerDiffers(a, b, 0);
      } else {
        LowerDiffers(a, b, 9);
      }
    }
  }

  // ---------------------------------------------------------------------------
  // Usage lists: shared token classification

  /** The key usage bit a name stands for, matched case-insensitively. */
  function KeyUsageOf(name: string): Option<KeyUsageBit>
  {
    LookupName(KeyUsageNames, name)
  }

  /** The extended key usage a name stands for, matched case-insensitively. */
  function ExtKeyUsageOf(name: string): Option<ExtKeyUsage>
  {
    LookupName(ExtKeyUsageNames, name)
  }

  /** A usage token is acceptable when it trims to nothing or its trimmed text is a
      known name. */
  predicate Recognised<V>(token: string, lookup: string -> Option<V>)
  {
    TrimSpace(token) == "" || lookup(TrimSpace(token)).Some?
  }

  /** Some non-blank token names `v`. */
  ghost predicate NamedBy<V>(tokens: seq<string>, lookup: string -> Option<V>, v: V)
  {
    exists i :: 0 <= i < |tokens| && TrimSpace(tokens[i]) != "" && lookup(TrimSpace(tokens[i])) == Some(v)
  }

  /** The values of the non-blank recognised tokens, in input order. */
  function Matched<V>(tokens: seq<string>, lookup: string -> Option<V>): seq<V>
  {
    if tokens == [] then []
    else
      var key := TrimSpace(tokens[|tokens| - 1]);
      Matched(tokens[..|tokens| - 1], lookup)
        + (if key != "" && lookup(key).Some? then [lookup(key).value] else [])
  }

  /** The trimmed text of the non-blank unrecognised tokens, in input order. */
  function Unmatched<V>(tokens: seq<string>, lookup: string -> Option<V>): seq<string>
  {
    if tokens == [] then []
    else
      var key := TrimSpace(tokens[|tokens| - 1]);
      Unmatched(tokens[..|tokens| - 1], lookup)
        + (if key != "" && lookup(key).None? then [key] else [])
  }

  /** No invalid token is reported exactly when every token is recognised. */
  lemma {:induction false} UnmatchedEmpty<V>(tokens: seq<string>, lookup: string -> Option<V>)
    ensures Unmatched(tokens, lookup) == [] <==> forall i :: 0 <= i < |tokens| ==> Recognised(tokens[i], lookup)
  {
    if tokens != [] {
      var init := tokens[..|tokens| - 1];
      UnmatchedEmpty(init, lookup);
      assert forall i :: 0 <= i < |init| ==> tokens[i] == init[i];
    }
  }

  /** Every unrecognised token is reported, and only unrecognised tokens are. */
  lemma {:induction false} UnmatchedReportsAll<V>(tokens: seq<string>, lookup: string -> Option<V>)
    ensures forall i :: 0 <= i < |tokens| && !Recognised(tokens[i], lookup) ==>
              TrimSpace(tokens[i]) in Unmatched(tokens, lookup)
    ensures forall k :: k in Unmatched(tokens, lookup) ==> k != "" && lookup(k).None?
  {
    if tokens != [] {
      var init := tokens[..|tokens| - 1];
      UnmatchedReportsAll(init, lookup);
      assert forall i :: 0 <= i < |init| ==> tokens[i] == init[i];
    }
  }

  /** Every matched value is named by some non-blank token. */
  lemma {:induction false} MatchedSound<V>(tokens: seq<string>, lookup: string -> Option<V>)
    ensures forall v :: v in Matched(tokens, lookup) ==>
              exists i :: 0 <= i < |tokens| && TrimSpace(tokens[i]) != "" && lookup(TrimSpace(tokens[i])) == Some(v)
  {
    if tokens != [] {
      var init := tokens[..|tokens| - 1];
      MatchedSound(init, lookup);
      assert forall i :: 0 <= i < |init| ==> tokens[i] == init[i];
    }
  }

  /** The value of every non-blank recognised token is matched. */
  lemma {:induction false} MatchedComplete<V>(tokens: seq<string>, lookup: string -> Option<V>)
    ensures forall i :: 0 <= i < |tokens| && TrimSpace(tokens[i]) != "" && lookup(TrimSpace(tokens[i])).Some? ==>
              lookup(TrimSpace(tokens[i])).value in Matched(tokens, lookup)
  {
    if tokens != [] {
      var init := tokens[..|tokens| - 1];
      MatchedComplete(init, lookup);
      assert forall i :: 0 <= i < |init| ==> tokens[i] == init[i];
    }
  }

  /** A value is matched exactly when some non-blank token names it. */
  lemma MatchedMembers<V>(tokens: seq<string>, lookup: string -> Option<V>)
    ensures forall v :: v in Matched(tokens, lookup) <==>
              exists i :: 0 <= i < |tokens| && TrimSpace(tokens[i]) != "" && lookup(TrimSpace(tokens[i])) == Some(v)
  {
    MatchedSound(tokens, lookup);
    MatchedComplete(tokens, lookup);
  }

  /** Extending the token list by one token extends both classifications by it. */
  lemma TokensSnoc<V>(tokens: seq<string>, i: nat, lookup: string -> Option<V>)
    requires i < |tokens|
    ensures var key := TrimSpace(tokens[i]);
      && Matched(tokens[..i + 1], lookup) ==
           Matched(tokens[..i], lookup) + (if key != "" && lookup(key).Some? then [lookup(key).value] else [])
      && Unmatched(tokens[..i + 1], lookup) ==
           Unmatched(tokens[..i], lookup) + (if key != "" && lookup(key).None? then [key] else [])
  {
    assert tokens[..i + 1][..i] == tokens[..i];
  }

  /** The union of singletons over a sequence, built front to back as the source
      ORs bits into its mask. */
  function SetOf<T>(s: seq<T>): set<T>
  {
    if s == [] then {} else SetOf(s[..|s| - 1]) + {s[|s| - 1]}
  }

  lemma {:induction false} SetOfMembers<T>(s: seq<T>)
    ensures forall x :: x in SetOf(s) <==> x in s
  {
    if s != [] {
      SetOfMembers(s[..|s| - 1]);
      assert s == s[..|s| - 1] + [s[|s| - 1]];
    }
  }

  lemma SetOfMatchedSnoc<V>(tokens: seq<string>, i: nat, lookup: string -> Option<V>)
    requires i < |tokens|
    ensures var key := TrimSpace(tokens[i]);
      SetOf(Matched(tokens[..i + 1], lookup)) ==
        SetOf(Matched(tokens[..i], lookup)) + (if key != "" && lookup(key).Some? then {lookup(key).value} else {})
  {
    TokensSnoc(tokens, i, lookup);
    var key := TrimSpace(tokens[i]);
    var m := Matched(tokens[..i], lookup);
    if key != "" && lookup(key).Some? {
      assert (m + [lookup(key).value])[..|m|] == m;
    } else {
      assert m + [] == m;
    }
  }

  // ---------------------------------------------------------------------------
  // getKeyUsage

  /** What `getKeyUsage` returns: the union of the bits named by the tokens, or an
      error naming every unrecognised token. */
  function KeyUsageSpec(usage: string): Result<KeyUsage>
  {
    var tokens := Split(usage, ',');
    var invalid := Unmatched(tokens, KeyUsageOf);
    if invalid != [] then Err("Invalid keyUsage: " + Join(invalid, ","))
    else Ok(SetOf(Matched(tokens, KeyUsageOf)))
  }

  method GetKeyUsage(usage: string) returns (r: Result<KeyUsage>)
    ensures r == KeyUsageSpec(usage)
  {
    var keyUsage: KeyUsage := {};
    var usages := Split(usage, ',');
    var invalid := false;
    var invalidKeyUsages: seq<string> := [];
    for i := 0 to |usages|
      invariant keyUsage == SetOf(Matched(usages[..i], KeyUsageOf))
      invariant invalidKeyUsages == Unmatched(usages[..i], KeyUsageOf)
      invariant invalid <==> invalidKeyUsages != []
    {
      TokensSnoc(usages, i, KeyUsageOf);
      SetOfMatchedSnoc(usages, i, KeyUsageOf);
      var key := TrimSpace(usages[i]);
      if key == "" {
        continue;
      }
      var v := FindName(KeyUsageNames, key);
      if v.Some? {
        keyUsage := keyUsage + {v.value};
      } else {
        invalid := true;
        invalidKeyUsages := invalidKeyUsages + [key];
      }
    }
    assert usages[..|usages|] == usages;
    if invalid {
      return Err("Invalid keyUsage: " + Join(invalidKeyUsages, ","));
    }
    return Ok(keyUsage);
  }

  /** `getKeyUsage` succeeds exactly when every non-blank token names a key usage;
      it then returns exactly the bits those tokens name (no baseline bits), and
      otherwise reports every unrecognised token. */
  lemma KeyUsageOutcome(usage: string)
    ensures var tokens := Split(usage, ',');
      KeyUsageSpec(usage).Ok? <==> forall i :: 0 <= i < |tokens| ==> Recognised(tokens[i], KeyUsageOf)
    ensures var tokens := Split(usage, ',');
      KeyUsageSpec(usage).Ok? ==>
        forall b :: b in KeyUsageSpec(usage).value <==> NamedBy(tokens, KeyUsageOf, b)
    ensures var tokens := Split(usage, ',');
      KeyUsageSpec(usage).Err? ==>
        forall i :: 0 <= i < |tokens| && !Recognised(tokens[i], KeyUsageOf) ==>
          TrimSpace(tokens[i]) in Unmatched(tokens, KeyUsageOf)
  {
    UnmatchedEmpty(Split(usage, ','), KeyUsageOf);
    UnmatchedReportsAll(Split(usage, ','), KeyUsageOf);
    MatchedMembers(Split(usage, ','), KeyUsageOf);
    SetOfMembers(Matched(Split(usage, ','), KeyUsageOf));
  }

  // ---------------------------------------------------------------------------
  // appendEKU and getExtKeyUsage

  /** `appendEKU`: append eku unless it is already in the list. */
  method AppendEKU(ekus: seq<ExtKeyUsage>, eku: ExtKeyUsage) returns (r: seq<ExtKeyUsage>)
    ensures r == AppendAbsent(ekus, eku, Id)
  {
    var found := false;
    var i := 0;
    while i < |ekus|
      invariant 0 <= i <= |ekus|
      invariant eku !in ekus[..i]
    {
      if ekus[i] == eku {
        found := true;
        break;
      }
      i := i + 1;
    }
    OccursId(ekus, eku);
    if !found {
      assert ekus[..i] == ekus;
      return ekus + [eku];
    }
    return ekus;
  }

  /** What `getExtKeyUsage` returns: the named purposes without repeats, in the
      order first named, or an error naming every unrecognised token. */
  function ExtKeyUsageSpec(usage: string): Result<seq<ExtKeyUsage>>
  {
    DistinctLookup(Split(usage, ','), ExtKeyUsageOf, "Invalid ExtKeyUsage: ")
  }

  /** The values the tokens name, without repeats and in the order first named,
      or an error listing every unrecognised token after `prefix`. */
  function DistinctLookup<V(==)>(tokens: seq<string>, lookup: string -> Option<V>, prefix: string): Result<seq<V>>
  {
    var invalid := Unmatched(tokens, lookup);
    if invalid != [] then Err(prefix + Join(invalid, ","))
    else Ok(DedupBy(Matched(tokens, lookup), Id))
  }

  method GetExtKeyUsage(usage: string) returns (r: Result<seq<ExtKeyUsage>>)
    ensures r == ExtKeyUsageSpec(usage)
  {
    var extKeyUsages: seq<ExtKeyUsage> := [];
    var usages := Split(usage, ',');
    var invalid := false;
    var invalidExtKeyUsages: seq<string> := [];
    for i := 0 to |usages|
      invariant extKeyUsages == DedupBy(Matched(usages[..i], ExtKeyUsageOf), Id)
      invariant invalidExtKeyUsages == Unmatched(usages[..i], ExtKeyUsageOf)
      invariant invalid <==> invalidExtKeyUsages != []
    {
      TokensSnoc(usages, i, ExtKeyUsageOf);
      var key := TrimSpace(usages[i]);
      assert Matched(usages[..i], ExtKeyUsageOf) + [] == Matched(usages[..i], ExtKeyUsageOf);
      if key == "" {
        continue;
      }
      var v := FindName(ExtKeyUsageNames, key);
      if v.Some? {
        DedupBySnoc(Matched(usages[..i], ExtKeyUsageOf), v.value, Id);
        extKeyUsages := AppendEKU(extKeyUsages, v.value);
      } else {
        invalid := true;
        invalidExtKeyUsages := invalidExtKeyUsages + [key];
      }
    }
    assert usages[..|usages|] == usages;
    if invalid {
      return Err("Invalid ExtKeyUsage: " + Join(invalidExtKeyUsages, ","));
    }
    return Ok(extKeyUsages);
  }

  /** Matched values without repeats: each named value exactly once. */
  lemma DedupMatched<V>(tokens: seq<string>, lookup: string -> Option<V>)
    ensures NoDupBy(DedupBy(Matched(tokens, lookup), Id), Id)
    ensures forall v :: v in DedupBy(Matched(tokens, lookup), Id) <==>
              exists i :: 0 <= i < |tokens| && TrimSpace(tokens[i]) != "" && lookup(TrimSpace(tokens[i])) == Some(v)
  {
    var m := Matched(tokens, lookup);
    MatchedMembers(tokens, lookup);
    DedupByNoDup(m, Id);
    DedupByMembers(m, Id);
    forall v ensures v in DedupBy(m, Id) <==> v in m {
      OccursId(m, v);
      OccursId(DedupBy(m, Id), v);
    }
  }

  /** The facts ExtKeyUsageOutcome needs, for any lookup. */
  lemma DistinctLookupOutcome<V>(tokens: seq<string>, lookup: string -> Option<V>, prefix: string)
    ensures DistinctLookup(tokens, lookup, prefix).Ok? <==> forall i :: 0 <= i < |tokens| ==> Recognised(tokens[i], lookup)
    ensures DistinctLookup(tokens, lookup, prefix).Ok? ==>
              NoDupBy(DistinctLookup(tokens, lookup, prefix).value, Id)
              && forall v :: v in DistinctLookup(tokens, lookup, prefix).value <==> NamedBy(tokens, lookup, v)
    ensures DistinctLookup(tokens, lookup, prefix).Err? ==>
              forall i :: 0 <= i < |tokens| && !Recognised(tokens[i], lookup) ==>
                TrimSpace(tokens[i]) in Unmatched(tokens, lookup)
  {
    UnmatchedEmpty(tokens, lookup);
    UnmatchedReportsAll(tokens, lookup);
    DedupMatched(tokens, lookup);
  }

  /** `getExtKeyUsage` succeeds exactly when every non-blank token names a purpose;
      it then returns each named purpose exactly once (a blank list gives the empty
      list, with no default purpose), and otherwise reports every unrecognised token. */
  lemma ExtKeyUsageOutcome(usage: string)
    ensures var tokens := Split(usage, ',');
      ExtKeyUsageSpec(usage).Ok? <==> forall i :: 0 <= i < |tokens| ==> Recognised(tokens[i], ExtKeyUsageOf)
    ensures var tokens := Split(usage, ',');
      ExtKeyUsageSpec(usage).Ok? ==>
        NoDupBy(ExtKeyUsageSpec(usage).value, Id)
        && forall e :: e in ExtKeyUsageSpec(usage).value <==> NamedBy(tokens, ExtKeyUsageOf, e)
    ensures var tokens := Split(usage, ',');
      ExtKeyUsageSpec(usage).Err? ==>
        forall i :: 0 <= i < |tokens| && !Recognised(tokens[i], ExtKeyUsageOf) ==>
          TrimSpace(tokens[i]) in Unmatched(tokens, ExtKeyUsageOf)
  {
    DistinctLookupOutcome(Split(usage, ','), ExtKeyUsageOf, "Invalid ExtKeyUsage: ");
  }


  // ---------------------------------------------------------------------------
  // getSubject

  /** A subject segment counts only when splitting it on '=' gives exactly two parts. */
  predicate WellFormed(seg: string)
  {
    |Split(seg, '=')| == 2
  }

  function SegKey(seg: string): string
    requires WellFormed(seg)
  {
    TrimSpace(Split(seg, '=')[0])
  }

  function SegValue(seg: string): string
    requires WellFormed(seg)
  {
    TrimSpace(Split(seg, '=')[1])
  }

  predicate HasKey(seg: string, key: string)
  {
    WellFormed(seg) && SegKey(seg) == key
  }

  /** One round of the `getSubject` loop: C, ST, L and O append their non-empty
      value, CN overwrites the common name, anything else is ignored. */
  function SubjectStep(n: Name, seg: string): Name
  {
    if !WellFormed(seg) then n
    else
      var key, val := SegKey(seg), SegValue(seg);
      if key == "C" then (if val == "" then n else n.(country := n.country + [val]))
      else if key == "ST" then (if val == "" then n else n.(province := n.province + [val]))
      else if key == "L" then (if val == "" then n else n.(locality := n.locality + [val]))
      else if key == "O" then (if val == "" then n else n.(organization := n.organization + [val]))
      else if key == "CN" then n.(commonName := val)
      else n
  }

  function SubjectFold(segs: seq<string>): Name
  {
    if segs == [] then EmptyName
    else SubjectStep(SubjectFold(segs[..|segs| - 1]), segs[|segs| - 1])
  }

  /** What `getSubject` returns. */
  function SubjectSpec(subject: string): Result<Name>
  {
    var n := SubjectFold(Split(subject, '/'));
    if n.commonName == "" then Err("No Common Name specified in subject") else Ok(n)
  }

  method GetSubject(subject: string) returns (r: Result<Name>)
    ensures r == SubjectSpec(subject)
  {
    var commonName := "";
    var ss := Split(subject, '/');
    var country: seq<string> := [];
    var province: seq<string> := [];
    var locality: seq<string> := [];
    var organization: seq<string> := [];
    for i := 0 to |ss|
      invariant Name(country, province, locality, organization, commonName) == SubjectFold(ss[..i])
    {
      assert ss[..i + 1][..i] == ss[..i];
      var info := Split(ss[i], '=');
      if |info| == 2 {
        var key := TrimSpace(info[0]);
        var val := TrimSpace(info[1]);
        if key == "C" {
          if val != "" {
            country := country + [val];
          }
        } else if key == "ST" {
          if val != "" {
            province := province + [val];
          }
        } else if key == "L" {
          if val != "" {
            locality := locality + [val];
          }
        } else if key == "O" {
          if val != "" {
            organization := organization + [val];
          }
        } else if key == "CN" {
          commonName := val;
        }
      }
    }
    assert ss[..|ss|] == ss;
    var name := EmptyName.(commonName := commonName);
    if |country| > 0 {
      name := name.(country := country);
    }
    if |province| > 0 {
      name := name.(province := province);
    }
    if |locality| > 0 {
      name := name.(locality := locality);
    }
    if |organization| > 0 {
      name := name.(organization := organization);
    }
    if name.commonName == "" {
      return Err("No Common Name specified in subject");
    }
    return Ok(name);
  }

  /** Reference definition of a list-valued attribute: the trimmed non-empty values
      of the well-formed segments with that key, in input order. */
  function Kept(segs: seq<string>, key: string): seq<string>
  {
    if segs == [] then [] else KeptOf(segs[0], key) + Kept(segs[1..], key)
  }

  /** What one segment adds to the list of an attribute: its value when the
      segment is well formed, has that key and a non-blank value. */
  function KeptOf(seg: string, key: string): seq<string>
  {
    if HasKey(seg, key) && SegValue(seg) != "" then [SegValue(seg)] else []
  }

  lemma {:induction false} KeptSnoc(segs: seq<string>, seg: string, key: string)
    ensures Kept(segs + [seg], key) == Kept(segs, key) + KeptOf(seg, key)
  {
    var all := segs + [seg];
    if segs == [] {
      assert all[1..] == [];
      assert Kept(all, key) == KeptOf(seg, key) + Kept([], key);
    } else {
      assert all[0] == segs[0] && all[1..] == segs[1..] + [seg];
      KeptSnoc(segs[1..], seg, key);
      assert Kept(all, key) == KeptOf(segs[0], key) + (Kept(segs[1..], key) + KeptOf(seg, key));
      assert Kept(segs, key) == KeptOf(segs[0], key) + Kept(segs[1..], key);
    }
  }

  /** The i-th segment is the last well-formed CN segment. */
  ghost predicate IsLastCommonName(segs: seq<string>, i: int)
  {
    0 <= i < |segs| && HasKey(segs[i], "CN") && forall j :: i < j < |segs| ==> !HasKey(segs[j], "CN")
  }

  predicate IsCommonNameSegment(seg: string)
  {
    HasKey(seg, "CN")
  }

  /** One segment changes each attribute list only by its own kept value, and the
      common name only when it is a well-formed CN segment. */
  lemma SubjectStepFields(n: Name, seg: string)
    ensures SubjectStep(n, seg).country == n.country + KeptOf(seg, "C")
    ensures SubjectStep(n, seg).province == n.province + KeptOf(seg, "ST")
    ensures SubjectStep(n, seg).locality == n.locality + KeptOf(seg, "L")
    ensures SubjectStep(n, seg).organization == n.organization + KeptOf(seg, "O")
    ensures SubjectStep(n, seg).commonName == if HasKey(seg, "CN") then SegValue(seg) else n.commonName
  {
  }

  /** The attributes do not interfere: C, ST, L and O accumulate their own kept
      values in input order, and the common name is the trimmed value of the last
      well-formed CN segment (so a later empty `CN=` wipes an earlier one), or empty
      when there is none. */
  lemma {:induction false} SubjectFoldFields(segs: seq<string>)
    ensures SubjectFold(segs).country == Kept(segs, "C")
    ensures SubjectFold(segs).province == Kept(segs, "ST")
    ensures SubjectFold(segs).locality == Kept(segs, "L")
    ensures SubjectFold(segs).organization == Kept(segs, "O")
    ensures forall i :: IsLastCommonName(segs, i) ==> SubjectFold(segs).commonName == SegValue(segs[i])
    ensures (forall i :: 0 <= i < |segs| ==> !HasKey(segs[i], "CN")) ==> SubjectFold(segs).commonName == ""
  {
    SubjectFoldCommonName(segs);
    if segs != [] {
      var init, seg := segs[..|segs| - 1], segs[|segs| - 1];
      assert segs == init + [seg];
      SubjectFoldFields(init);
      assert SubjectFold(segs) == SubjectStep(SubjectFold(init), seg);
      SubjectStepFields(SubjectFold(init), seg);
      KeptSnoc(init, seg, "C");
      KeptSnoc(init, seg, "ST");
      KeptSnoc(init, seg, "L");
      KeptSnoc(init, seg, "O");
    }
  }

  /** The common-name half of SubjectFoldFields. */
  lemma {:induction false} SubjectFoldCommonName(segs: seq<string>)
    ensures forall i :: IsLastCommonName(segs, i) ==> SubjectFold(segs).commonName == SegValue(segs[i])
    ensures (forall i :: 0 <= i < |segs| ==> !HasKey(segs[i], "CN")) ==> SubjectFold(segs).commonName == ""
  {
    if segs != [] {
      var init, seg := segs[..|segs| - 1], segs[|segs| - 1];
      assert segs == init + [seg];
      SubjectFoldCommonName(init);
      assert SubjectFold(segs) == SubjectStep(SubjectFold(init), seg);
      SubjectStepFields(SubjectFold(init), seg);
      forall i | IsLastCommonName(segs, i) ensures SubjectFold(segs).commonName == SegValue(segs[i]) {
        if i < |init| {
          assert !HasKey(seg, "CN");
          assert IsLastCommonName(init, i);
        }
      }
    }
  }

  /** `getSubject` succeeds exactly when some segment is a well-formed CN segment
      and the last such segment has a non-empty trimmed value, which is then the
      common name. */
  lemma SubjectOutcome(subject: string)
    ensures SubjectSpec(subject).Ok? <==>
              exists i :: IsLastCommonName(Split(subject, '/'), i) && SegValue(Split(subject, '/')[i]) != ""
    ensures forall i :: IsLastCommonName(Split(subject, '/'), i) && SubjectSpec(subject).Ok? ==>
              SubjectSpec(subject).value.commonName == SegValue(Split(subject, '/')[i])
  {
    var segs := Split(subject, '/');
    SubjectFoldCommonName(segs);
    CommonNameFound(segs);
  }

  /** The fold ends with a non-empty common name exactly when the last CN
      segment has a non-empty value. */
  lemma CommonNameFound(segs: seq<string>)
    ensures SubjectFold(segs).commonName != "" <==> exists i :: IsLastCommonName(segs, i) && SegValue(segs[i]) != ""
  {
    var name := SubjectFold(segs);
    SubjectFoldCommonName(segs);
    if name.commonName != "" {
      LastCommonNameExists(segs);
      var i :| IsLastCommonName(segs, i);
      assert IsLastCommonName(segs, i) && SegValue(segs[i]) != "";
    }
  }

  lemma LastCommonNameExists(segs: seq<string>)
    requires exists i :: 0 <= i < |segs| && HasKey(segs[i], "CN")
    ensures exists i :: IsLastCommonName(segs, i)
  {
    var k :| 0 <= k < |segs| && HasKey(segs[k], "CN");
    assert IsCommonNameSegment(segs[k]);
    LastWhereExists(segs, IsCommonNameSegment);
    var i :| IsLastWhere(segs, IsCommonNameSegment, i);
    forall j | i < j < |segs|
      ensures !HasKey(segs[j], "CN")
    {
      assert !IsCommonNameSegment(segs[j]);
    }
    assert IsLastCommonName(segs, i);
  }

  /** A segment that is malformed or has an unknown key (such as `S`) changes
      nothing, wherever it stands. */
  lemma {:induction false} SubjectIgnoresUnknownSegment(before: seq<string>, seg: string, after: seq<string>)
    requires !WellFormed(seg) || SegKey(seg) !in {"C", "ST", "L", "O", "CN"}
    ensures SubjectFold(before + [seg] + after) == SubjectFold(before + after)
  {
    if after == [] {
      assert (before + [seg])[..|before|] == before;
      assert before + [] == before;
      assert before + [seg] + [] == before + [seg];
      SubjectStepIgnores(SubjectFold(before), seg);
    } else {
      var init, last := after[..|after| - 1], after[|after| - 1];
      SubjectIgnoresUnknownSegment(before, seg, init);
      SubjectFoldSnoc(before + [seg] + init, last);
      SubjectFoldSnoc(before + init, last);
      InsertSnoc(before, seg, after);
    }
  }

  lemma SubjectFoldSnoc(segs: seq<string>, seg: string)
    ensures SubjectFold(segs + [seg]) == SubjectStep(SubjectFold(segs), seg)
  {
    assert (segs + [seg])[..|segs|] == segs;
  }

  lemma SubjectStepIgnores(n: Name, seg: string)
    requires !WellFormed(seg) || SegKey(seg) !in {"C", "ST", "L", "O", "CN"}
    ensures SubjectStep(n, seg) == n
  {
  }

  lemma KeptOfTrimmed(seg: string, key: string)
    ensures forall v :: v in KeptOf(seg, key) ==> v != "" && v[0] !in Spaces && v[|v| - 1] !in Spaces
  {
    if KeptOf(seg, key) != [] {
      var v := SegValue(seg);
      assert KeptOf(seg, key) == [v];
    }
  }

  /** Every attribute value kept is non-empty and carries no surrounding white space. */
  lemma {:induction false} KeptValuesTrimmed(segs: seq<string>, key: string)
    ensures forall v :: v in Kept(segs, key) ==> v != "" && v[0] !in Spaces && v[|v| - 1] !in Spaces
  {
    if segs != [] {
      KeptValuesTrimmed(segs[1..], key);
      KeptOfTrimmed(segs[0], key);
    }
  }

  // ---------------------------------------------------------------------------
  // getDNSNamesAndIPAddrs, containString, containsIP

  const IpCutset: set<char> := {'i', 'p', ':'}
  const DnsCutset: set<char> := {'d', 'n', 's', ':'}

  /** The host a SAN token stands for: trimmed, leading characters of "ip:" and then
      of "dns:" stripped (character sets, not prefixes), trimmed again. */
  function SanHost(token: string): string
  {
    TrimSpace(TrimLeftSet(TrimLeftSet(TrimSpace(token), IpCutset), DnsCutset))
  }

  /** The SAN tokens: the lower-cased input split on commas. */
  function SanTokens(s: string): seq<string>
  {
    Split(ToLower(s), ',')
  }

  /** The host of every token, position by position. */
  function SanHosts(tokens: seq<string>): (hosts: seq<string>)
    ensures |hosts| == |tokens|
  {
    if tokens == [] then [] else SanHosts(tokens[..|tokens| - 1]) + [SanHost(tokens[|tokens| - 1])]
  }

  lemma {:induction false} SanHostsIndex(tokens: seq<string>)
    ensures forall i :: 0 <= i < |tokens| ==> SanHosts(tokens)[i] == SanHost(tokens[i])
  {
    if tokens != [] {
      var init := tokens[..|tokens| - 1];
      SanHostsIndex(init);
      assert forall i :: 0 <= i < |init| ==> tokens[i] == init[i];
    }
  }

  /** The non-empty hosts that do not parse as IP addresses, in input order. */
  function DnsCandidates(hosts: seq<string>, parseIP: string -> Option<IP>): seq<string>
  {
    if hosts == [] then []
    else
      var host := hosts[|hosts| - 1];
      DnsCandidates(hosts[..|hosts| - 1], parseIP) + (if host != "" && parseIP(host).None? then [host] else [])
  }

  /** The addresses of the non-empty hosts that parse as IP addresses, in input order. */
  function IpCandidates(hosts: seq<string>, parseIP: string -> Option<IP>): seq<IP>
  {
    if hosts == [] then []
    else
      var host := hosts[|hosts| - 1];
      IpCandidates(hosts[..|hosts| - 1], parseIP)
        + (if host != "" && parseIP(host).Some? then [parseIP(host).value] else [])
  }

  /** What `getDNSNamesAndIPAddrs` returns: DNS names without repeats, and IP
      addresses without two of the same string form, both in first-seen order. */
  function SanSpec(s: string, parseIP: string -> Option<IP>, ipString: IP -> string): (seq<string>, seq<IP>)
  {
    var hosts := SanHosts(SanTokens(s));
    (DedupBy(DnsCandidates(hosts, parseIP), Id), DedupBy(IpCandidates(hosts, parseIP), ipString))
  }

  /** `containString`. */
  method ContainString(elements: seq<string>, element: string) returns (found: bool)
    ensures found <==> element in elements
  {
    for i := 0 to |elements|
      invariant element !in elements[..i]
    {
      if element == elements[i] {
        return true;
      }
    }
    assert elements[..|elements|] == elements;
    return false;
  }

  /** `containsIP`: addresses are compared by their string form. */
  method ContainsIP(elements: seq<IP>, element: IP, ipString: IP -> string) returns (found: bool)
    ensures found <==> Occurs(elements, ipString(element), ipString)
  {
    for i := 0 to |elements|
      invariant forall j :: 0 <= j < i ==> ipString(elements[j]) != ipString(element)
    {
      if ipString(element) == ipString(elements[i]) {
        return true;
      }
    }
    return false;
  }

  lemma SanHostsSnoc(tokens: seq<string>, i: nat)
    requires i < |tokens|
    ensures SanHosts(tokens[..i + 1]) == SanHosts(tokens[..i]) + [SanHost(tokens[i])]
  {
    assert tokens[..i + 1][..i] == tokens[..i];
  }

  /** One more host joins exactly the list its parse selects. */
  lemma CandidatesSnoc(hosts: seq<string>, host: string, parseIP: string -> Option<IP>)
    ensures DnsCandidates(hosts + [host], parseIP) ==
              DnsCandidates(hosts, parseIP) + (if host != "" && parseIP(host).None? then [host] else [])
    ensures IpCandidates(hosts + [host], parseIP) ==
              IpCandidates(hosts, parseIP) + (if host != "" && parseIP(host).Some? then [parseIP(host).value] else [])
  {
    assert (hosts + [host])[..|hosts|] == hosts;
  }

  method GetDNSNamesAndIPAddrs(s: string, parseIP: string -> Option<IP>, ipString: IP -> string)
    returns (dnsNames: seq<string>, ips: seq<IP>)
    ensures (dnsNames, ips) == SanSpec(s, parseIP, ipString)
  {
    dnsNames, ips := [], [];
    var lowered := ToLower(s);
    var hosts := Split(lowered, ',');
    for i := 0 to |hosts|
      invariant dnsNames == DedupBy(DnsCandidates(SanHosts(hosts[..i]), parseIP), Id)
      invariant ips == DedupBy(IpCandidates(SanHosts(hosts[..i]), parseIP), ipString)
    {
      SanHostsSnoc(hosts, i);
      CandidatesSnoc(SanHosts(hosts[..i]), SanHost(hosts[i]), parseIP);
      ghost var dc, ic := DnsCandidates(SanHosts(hosts[..i]), parseIP), IpCandidates(SanHosts(hosts[..i]), parseIP);
      var host := TrimSpace(hosts[i]);
      host := TrimLeftSet(host, IpCutset);
      host := TrimLeftSet(host, DnsCutset);
      host := TrimSpace(host);
      assert host == SanHost(hosts[i]);
      if host == "" {
        assert dc + [] == dc && ic + [] == ic;
        continue;
      }
      var ip := parseIP(host);
      if ip.Some? {
        assert dc + [] == dc;
        DedupBySnoc(ic, ip.value, ipString);
        var present := ContainsIP(ips, ip.value, ipString);
        if !present {
          ips := ips + [ip.value];
        }
      } else {
        assert ic + [] == ic;
        DedupBySnoc(dc, host, Id);
        OccursId(dnsNames, host);
        var present := ContainString(dnsNames, host);
        if !present {
          dnsNames := dnsNames + [host];
        }
      }
    }
    assert hosts[..|hosts|] == hosts;
  }

  lemma {:induction false} DnsCandidatesMembers(hosts: seq<string>, parseIP: string -> Option<IP>)
    ensures forall d :: d in DnsCandidates(hosts, parseIP) <==> d != "" && parseIP(d).None? && d in hosts
  {
    if hosts != [] {
      var init := hosts[..|hosts| - 1];
      DnsCandidatesMembers(init, parseIP);
      assert hosts == init + [hosts[|hosts| - 1]];
    }
  }

  lemma {:induction false} IpCandidatesMembers(hosts: seq<string>, parseIP: string -> Option<IP>)
    ensures forall a :: a in IpCandidates(hosts, parseIP) <==>
              exists i :: 0 <= i < |hosts| && hosts[i] != "" && parseIP(hosts[i]) == Some(a)
  {
    if hosts != [] {
      var init, last := hosts[..|hosts| - 1], hosts[|hosts| - 1];
      IpCandidatesMembers(init, parseIP);
      var tail := if last != "" && parseIP(last).Some? then [parseIP(last).value] else [];
      assert IpCandidates(hosts, parseIP) == IpCandidates(init, parseIP) + tail;
      forall a | a in IpCandidates(hosts, parseIP)
        ensures exists i :: 0 <= i < |hosts| && hosts[i] != "" && parseIP(hosts[i]) == Some(a)
      {
        if a in IpCandidates(init, parseIP) {
          var i :| 0 <= i < |init| && init[i] != "" && parseIP(init[i]) == Some(a);
          assert hosts[i] == init[i];
        } else {
          assert a in tail;
          assert hosts[|hosts| - 1] == last;
        }
      }
      forall a | exists i :: 0 <= i < |hosts| && hosts[i] != "" && parseIP(hosts[i]) == Some(a)
        ensures a in IpCandidates(hosts, parseIP)
      {
        var i :| 0 <= i < |hosts| && hosts[i] != "" && parseIP(hosts[i]) == Some(a);
        if i < |init| {
          assert init[i] == hosts[i];
          assert a in IpCandidates(init, parseIP);
        } else {
          assert a in tail;
        }
      }
    }
  }

  /** Over a sequence of hosts: every non-empty host lands in exactly one list,
      neither list repeats, and nothing else gets in. */
  lemma HostsPartition(hosts: seq<string>, parseIP: string -> Option<IP>, ipString: IP -> string)
    ensures NoDupBy(DedupBy(DnsCandidates(hosts, parseIP), Id), Id)
    ensures NoDupBy(DedupBy(IpCandidates(hosts, parseIP), ipString), ipString)
    ensures forall i :: 0 <= i < |hosts| && hosts[i] != "" && parseIP(hosts[i]).None? ==>
              hosts[i] in DedupBy(DnsCandidates(hosts, parseIP), Id)
    ensures forall i :: 0 <= i < |hosts| && hosts[i] != "" && parseIP(hosts[i]).Some? ==>
              Occurs(DedupBy(IpCandidates(hosts, parseIP), ipString), ipString(parseIP(hosts[i]).value), ipString)
    ensures forall d :: d in DedupBy(DnsCandidates(hosts, parseIP), Id) ==> d != "" && parseIP(d).None? && d in hosts
    ensures forall a :: a in DedupBy(IpCandidates(hosts, parseIP), ipString) ==>
              exists i :: 0 <= i < |hosts| && hosts[i] != "" && parseIP(hosts[i]) == Some(a)
  {
    var dc, ic := DnsCandidates(hosts, parseIP), IpCandidates(hosts, parseIP);
    DnsCandidatesMembers(hosts, parseIP);
    IpCandidatesMembers(hosts, parseIP);
    DedupByNoDup(dc, Id);
    DedupByNoDup(ic, ipString);
    DedupByMembers(dc, Id);
    DedupByMembers(ic, ipString);
    forall i | 0 <= i < |hosts| && hosts[i] != "" && parseIP(hosts[i]).None?
      ensures hosts[i] in DedupBy(dc, Id)
    {
      assert hosts[i] in dc;
      OccursId(dc, hosts[i]);
      OccursId(DedupBy(dc, Id), hosts[i]);
    }
    forall i | 0 <= i < |hosts| && hosts[i] != "" && parseIP(hosts[i]).Some?
      ensures Occurs(DedupBy(ic, ipString), ipString(parseIP(hosts[i]).value), ipString)
    {
      assert parseIP(hosts[i]).value in ic;
    }
  }

  /** Every non-empty host lands in exactly one list: among the IP addresses (by
      string form) when it parses as one, among the DNS names otherwise. Neither
      list repeats an entry or holds an empty DNS name, and nothing else gets in. */
  lemma SanPartition(s: string, parseIP: string -> Option<IP>, ipString: IP -> string)
    ensures var hosts, dns, ips := SanHosts(SanTokens(s)), SanSpec(s, parseIP, ipString).0, SanSpec(s, parseIP, ipString).1;
      && NoDupBy(dns, Id) && NoDupBy(ips, ipString)
      && (forall i :: 0 <= i < |hosts| && hosts[i] != "" && parseIP(hosts[i]).None? ==> hosts[i] in dns)
      && (forall i :: 0 <= i < |hosts| && hosts[i] != "" && parseIP(hosts[i]).Some? ==>
            hosts[i] !in dns && Occurs(ips, ipString(parseIP(hosts[i]).value), ipString))
      && (forall d :: d in dns ==> d != "" && parseIP(d).None? && d in hosts)
      && (forall a :: a in ips ==> exists i :: 0 <= i < |hosts| && hosts[i] != "" && parseIP(hosts[i]) == Some(a))
  {
    HostsPartition(SanHosts(SanTokens(s)), parseIP, ipString);
  }

  /** `TrimLeft` strips characters, not a prefix: after "dns:" is stripped, a host
      that starts with one of the letters d, n or s loses it too, so the DNS name
      recorded for "dns:ns1.example.com" is "1.example.com". */
  lemma {:induction false} DnsStripEatsHostLetters(host: string)
    requires host != [] && host[0] in DnsCutset
    ensures TrimLeftSet("dns:" + host, DnsCutset) == TrimLeftSet(host, DnsCutset)
    ensures |TrimLeftSet(host, DnsCutset)| < |host|
  {
    var t1, t2, t3 := "ns:" + host, "s:" + host, ":" + host;
    assert ("dns:" + host)[1..] == t1 && t1[1..] == t2 && t2[1..] == t3 && t3[1..] == host;
    CutHead("dns:" + host, DnsCutset);
    CutHead(t1, DnsCutset);
    CutHead(t2, DnsCutset);
    CutHead(t3, DnsCutset);
    CutHead(host, DnsCutset);
  }

  /** A leading cut character is dropped. */
  lemma CutHead(s: string, cut: set<char>)
    requires s != [] && s[0] in cut
    ensures TrimLeftSet(s, cut) == TrimLeftSet(s[1..], cut)
  {
  }

  // ---------------------------------------------------------------------------
  // NewCertInfo

  /** The exclusive bound of the random serial number, 2^128. */
  const SerialLimit: nat := 0x1_0000_0000_0000_0000_0000_0000_0000_0000

  /** `CertInfo`: the validated descriptor of a certificate to create. */
  datatype CertInfo = CertInfo(
    serialNumber: nat,
    isCA: bool,
    subject: Name,
    dnsNames: seq<string>,
    ipAddrs: seq<IP>,
    duration: Duration,
    keyUsage: KeyUsage,
    extKeyUsage: seq<ExtKeyUsage>)

  /** What a descriptor built by `NewCertInfo` always satisfies. */
  ghost predicate ValidCertInfo(info: CertInfo, parseIP: string -> Option<IP>, ipString: IP -> string)
  {
    && info.serialNumber < SerialLimit
    && info.subject.commonName != ""
    && NoDupBy(info.dnsNames, Id)
    && (forall d :: d in info.dnsNames ==> d != "" && parseIP(d).None?)
    && NoDupBy(info.ipAddrs, ipString)
    && NoDupBy(info.extKeyUsage, Id)
    && (forall e :: e in info.extKeyUsage ==> ExtKeyUsageAny <= e <= ExtKeyUsageMicrosoftKernelCodeSigning)
  }

  /** Every name of the extended key usage table stands for one of the fourteen
      purposes the library defines. */
  lemma ExtKeyUsageOfKnown(name: string)
    ensures ExtKeyUsageOf(name).Some? ==>
              ExtKeyUsageAny <= ExtKeyUsageOf(name).value <= ExtKeyUsageMicrosoftKernelCodeSigning
  {
    LookupNameSound(ExtKeyUsageNames, name);
    assert forall j :: 0 <= j < |ExtKeyUsageNames| ==>
             ExtKeyUsageAny <= ExtKeyUsageNames[j].1 <= ExtKeyUsageMicrosoftKernelCodeSigning;
  }

  lemma ExtKeyUsageNamesKnown(usage: string)
    ensures ExtKeyUsageSpec(usage).Ok? ==>
      forall e :: e in ExtKeyUsageSpec(usage).value ==> ExtKeyUsageAny <= e <= ExtKeyUsageMicrosoftKernelCodeSigning
  {
    ExtKeyUsageOutcome(usage);
    var tokens := Split(usage, ',');
    if ExtKeyUsageSpec(usage).Ok? {
      forall e | e in ExtKeyUsageSpec(usage).value
        ensures ExtKeyUsageAny <= e <= ExtKeyUsageMicrosoftKernelCodeSigning
      {
        var i :| 0 <= i < |tokens| && TrimSpace(tokens[i]) != "" && ExtKeyUsageOf(TrimSpace(tokens[i])) == Some(e);
        ExtKeyUsageOfKnown(TrimSpace(tokens[i]));
      }
    }
  }

  /** `NewCertInfo`: draws the serial, then parses subject, key usage and extended
      key usage, returning the first error in that order; the SAN step cannot fail.
      `serialDraw` is the outcome of the random draw below 2^128. */
  method NewCertInfo(duration: Duration, sub: string, san: string, usage: string, extUsage: string, isCA: bool,
                     serialDraw: Result<nat>, parseIP: string -> Option<IP>, ipString: IP -> string)
    returns (r: Result<CertInfo>)
    requires serialDraw.Ok? ==> serialDraw.value < SerialLimit
    ensures serialDraw.Err? ==> r == Err(serialDraw.error)
    ensures serialDraw.Ok? && SubjectSpec(sub).Err? ==> r == Err(SubjectSpec(sub).error)
    ensures serialDraw.Ok? && SubjectSpec(sub).Ok? && KeyUsageSpec(usage).Err? ==> r == Err(KeyUsageSpec(usage).error)
    ensures serialDraw.Ok? && SubjectSpec(sub).Ok? && KeyUsageSpec(usage).Ok? && ExtKeyUsageSpec(extUsage).Err? ==>
              r == Err(ExtKeyUsageSpec(extUsage).error)
    ensures r.Ok? <==> serialDraw.Ok? && SubjectSpec(sub).Ok? && KeyUsageSpec(usage).Ok? && ExtKeyUsageSpec(extUsage).Ok?
    ensures r.Ok? ==> r.value == CertInfo(serialDraw.value, isCA, SubjectSpec(sub).value,
                                          SanSpec(san, parseIP, ipString).0, SanSpec(san, parseIP, ipString).1,
                                          duration, KeyUsageSpec(usage).value, ExtKeyUsageSpec(extUsage).value)
    ensures r.Ok? ==> ValidCertInfo(r.value, parseIP, ipString)
  {
    if serialDraw.Err? {
      return Err(serialDraw.error);
    }
    var subject := GetSubject(sub);
    if subject.Err? {
      return Err(subject.error);
    }
    var keyUsage := GetKeyUsage(usage);
    if keyUsage.Err? {
      return Err(keyUsage.error);
    }
    var extKeyUsage := GetExtKeyUsage(extUsage);
    if extKeyUsage.Err? {
      return Err(extKeyUsage.error);
    }
    var dnsNames, ipAddrs := GetDNSNamesAndIPAddrs(san, parseIP, ipString);
    var info := CertInfo(serialDraw.value, isCA, subject.value, dnsNames, ipAddrs,
                         duration, keyUsage.value, extKeyUsage.value);
    SanPartition(san, parseIP, ipString);
    ExtKeyUsageOutcome(extUsage);
    ExtKeyUsageNamesKnown(extUsage);
    return Ok(info);
  }

  // ---------------------------------------------------------------------------
  // ParseCerts, ParseCert, ParseKey

  /** blocks prepended to an optional byte string. */
  function Prefixed(blocks: Bytes, more: Option<Bytes>): Option<Bytes>
  {
    match more
    case None => None
    case Some(m) => Some(blocks + m)
  }

  lemma PrefixedAssoc(a: Bytes, b: Bytes, more: Option<Bytes>)
    ensures Prefixed(a, Prefixed(b, more)) == Prefixed(a + b, more)
  {
    if more.Some? {
      assert a + (b + more.value) == (a + b) + more.value;
    }
  }

  /** The bodies of the consecutive PEM blocks of the input, concatenated, or None
      when some block does not decode. */
  function Concatenated(rest: Bytes, decode: Bytes -> Option<Decoded>): Option<Bytes>
    requires DecodeShrinks(decode)
    decreases |rest|
  {
    match decode(rest)
    case None => None
    case Some(d) =>
      if |d.rest| == 0 then Some(d.block.bytes) else Prefixed(d.block.bytes, Concatenated(d.rest, decode))
  }

  /** What `ParseCerts` returns. */
  function ParseCertsSpec(certBytes: Bytes, lib: Lib): Result<seq<Certificate>>
    requires DecodeShrinks(lib.decode)
  {
    match Concatenated(certBytes, lib.decode)
    case None => Err("Failed to parse certificate")
    case Some(blocks) =>
      match lib.parseCertificates(blocks)
      case Err(e) => Err("Failed to parse certificate: " + e)
      case Ok(certs) => Ok(certs)
  }

  /** `ParseCerts`: decodes consecutive PEM blocks until the input is used up,
      failing as soon as one does not decode, then parses the concatenated bodies. */
  method ParseCerts(certBytes: Bytes, lib: Lib) returns (r: Result<seq<Certificate>>)
    requires DecodeShrinks(lib.decode)
    ensures r == ParseCertsSpec(certBytes, lib)
  {
    var blocks: Bytes := [];
    var rest := certBytes;
    assert Prefixed(blocks, Concatenated(rest, lib.decode)) == Concatenated(rest, lib.decode) by {
      if Concatenated(rest, lib.decode).Some? {
        assert blocks + Concatenated(rest, lib.decode).value == Concatenated(rest, lib.decode).value;
      }
    }
    while true
      invariant Concatenated(certBytes, lib.decode) == Prefixed(blocks, Concatenated(rest, lib.decode))
      decreases |rest|
    {
      var block := lib.decode(rest);
      if block.None? {
        return Err("Failed to parse certificate");
      }
      PrefixedAssoc(blocks, block.value.block.bytes, Concatenated(block.value.rest, lib.decode));
      blocks := blocks + block.value.block.bytes;
      if |block.value.rest| == 0 {
        break;
      }
      rest := block.value.rest;
    }
    var certs := lib.parseCertificates(blocks);
    if certs.Err? {
      return Err("Failed to parse certificate: " + certs.error);
    }
    return Ok(certs.value);
  }

  /** `ParseCerts` succeeds exactly when every block up to the end of the input
      decodes and the library parses their concatenated bodies; every error it
      reports starts with "Failed to parse certificate", and an input whose first
      block does not decode gives that message alone. */
  lemma ParseCertsOutcome(certBytes: Bytes, lib: Lib)
    requires DecodeShrinks(lib.decode)
    ensures ParseCertsSpec(certBytes, lib).Ok? <==>
              Concatenated(certBytes, lib.decode).Some?
              && lib.parseCertificates(Concatenated(certBytes, lib.decode).value).Ok?
    ensures ParseCertsSpec(certBytes, lib).Err? ==>
              "Failed to parse certificate" <= ParseCertsSpec(certBytes, lib).error
    ensures lib.decode(certBytes).None? ==> ParseCertsSpec(certBytes, lib) == Err("Failed to parse certificate")
  {
  }

  /** `ParseCert`: the first PEM block's body parsed as one certificate. */
  function ParseCert(certBytes: Bytes, lib: Lib): (r: Result<Certificate>)
    ensures lib.decode(certBytes).None? ==> r == Err("Failed to parse certificate")
    ensures r.Ok? <==> lib.decode(certBytes).Some? && lib.parseCertificate(lib.decode(certBytes).value.block.bytes).Ok?
    ensures r.Ok? ==> lib.parseCertificate(lib.decode(certBytes).value.block.bytes) == Ok(r.value)
    ensures lib.decode(certBytes).Some? && lib.parseCertificate(lib.decode(certBytes).value.block.bytes).Err? ==>
              r == Err("Failed to parse certificate: " + lib.parseCertificate(lib.decode(certBytes).value.block.bytes).error)
  {
    match lib.decode(certBytes)
    case None => Err("Failed to parse certificate")
    case Some(d) =>
      match lib.parseCertificate(d.block.bytes)
      case Err(e) => Err("Failed to parse certificate: " + e)
      case Ok(c) => Ok(c)
  }

  /** The key syntaxes `ParseKey` chooses between. */
  datatype KeySyntax = Pkcs1 | Sec1 | Pkcs8

  /** `RSA PRIVATE KEY` blocks are PKCS #1, `EC PRIVATE KEY` blocks are SEC 1, and
      every other label, `PRIVATE KEY` included, is tried as PKCS #8. */
  function KeySyntaxOf(blockType: string): KeySyntax
  {
    if blockType == RSAKeyBlockType then Pkcs1
    else if blockType == ECKeyBlockType then Sec1
    else Pkcs8
  }

  function KeyParser(lib: Lib, syntax: KeySyntax): Bytes -> Result<PrivateKey>
  {
    match syntax
    case Pkcs1 => lib.parsePkcs1
    case Sec1 => lib.parseEc
    case Pkcs8 => lib.parsePkcs8
  }

  /** `ParseKey`: the first PEM block's body, parsed with the parser its label selects. */
  function ParseKey(keyBytes: Bytes, lib: Lib): (r: Result<PrivateKey>)
    ensures lib.decode(keyBytes).None? ==> r == Err("Failed to parse private key")
    ensures lib.decode(keyBytes).Some? ==>
      var b := lib.decode(keyBytes).value.block;
      var parsed := KeyParser(lib, KeySyntaxOf(b.blockType))(b.bytes);
      && (r.Ok? <==> parsed.Ok?)
      && (parsed.Ok? ==> r.value == parsed.value)
      && (parsed.Err? ==> r == Err("Failed to parse public key: " + parsed.error))
  {
    match lib.decode(keyBytes)
    case None => Err("Failed to parse private key")
    case Some(d) =>
      var key :=
        if d.block.blockType == RSAKeyBlockType then lib.parsePkcs1(d.block.bytes)
        else if d.block.blockType == ECKeyBlockType then lib.parseEc(d.block.bytes)
        else lib.parsePkcs8(d.block.bytes);
      match key
      case Err(e) => Err("Failed to parse public key: " + e)
      case Ok(k) => Ok(k)
  }
}
