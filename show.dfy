/** The field renderer of pkg/cert/show.go: a parsed certificate bundle or
    certificate request becomes an ordered list of single-entry maps, each modelled
    as an `Entry` whose field names the map's one key. */
module Show {
  import opened Wrappers
  import opened Text
  import opened X509
  import opened Common
  import opened SerialFormat

  /** The keys the renderer emits, in the order it emits them for a certificate,
      plus the separator written between the certificates of a bundle. */
  datatype Field =
    | Issuer | Subject | AltName | IsCA | SerialNumber | EffectiveDate | ExpirationDate
    | KeyUsageField | ExtKeyUsageField | Separator

  /** The map key each field is written under. */
  function Key(f: Field): string
  {
    match f
    case Issuer => "Issuer"
    case Subject => "Subject"
    case AltName => "Alternative Name"
    case IsCA => "Is CA"
    case SerialNumber => "Serial Number"
    case EffectiveDate => "Effective Date"
    case ExpirationDate => "Expiration Date"
    case KeyUsageField => "Key Usage"
    case ExtKeyUsageField => "Extended Key Usage"
    case Separator => "\n=================="
  }

  /** Each field is written under a key of its own, so an entry's map key
      names its field. */
  lemma KeysDistinct(f: Field, g: Field)
    ensures Key(f) == Key(g) <==> f == g
  {
  }

  /** One single-entry map of the result. */
  datatype Entry = Entry(field: Field, value: string)

  // ---------------------------------------------------------------------------
  // Label tables

  /** `kuActionToString`. */
  const KeyUsageLabels: seq<(KeyUsageBit, string)> := [
    (DigitalSignature, "Digital Signature"),
    (ContentCommitment, "Non Repudiation"),
    (KeyEncipherment, "Key Encipherment"),
    (DataEncipherment, "Data Encipherment"),
    (KeyAgreement, "Key Agreement"),
    (CertSign, "Certificate Sign"),
    (CRLSign, "CRL Sign"),
    (EncipherOnly, "Encipher Only"),
    (DecipherOnly, "Decipher Only")]

  /** `ekuActionToString`, ordered by purpose code (a Go map has no order). */
  const ExtKeyUsageLabels: seq<(ExtKeyUsage, string)> := [
    (ExtKeyUsageAny, "ANY"),
    (ExtKeyUsageServerAuth, "TLS Web Server Authentication"),
    (ExtKeyUsageClientAuth, "TLS Web Client Authentication"),
    (ExtKeyUsageCodeSigning, "Code Signing"),
    (ExtKeyUsageEmailProtection, "Email Protection"),
    (ExtKeyUsageIPSECEndSystem, "IPSec End System"),
    (ExtKeyUsageIPSECTunnel, "IPSec Tunnel"),
    (ExtKeyUsageIPSECUser, "IPsec User"),
    (ExtKeyUsageTimeStamping, "Time Stamping"),
    (ExtKeyUsageOCSPSigning, "OCSP Signing"),
    (ExtKeyUsageMicrosoftServerGatedCrypto, "Microsoft Server Gated Crypto"),
    (ExtKeyUsageNetscapeServerGatedCrypto, "Netscape Server Gated Crypto"),
    (ExtKeyUsageMicrosoftCommercialCodeSigning, "Microsoft Commercial Code Signing"),
    (ExtKeyUsageMicrosoftKernelCodeSigning, "1.3.6.1.4.1.311.61.1.1")]

  // ---------------------------------------------------------------------------
  // Key usage labels

  /** The labels of the table entries whose bit is set, in table order. */
  function SetLabels(table: seq<(KeyUsageBit, string)>, ku: KeyUsage): seq<string>
  {
    if table == [] then []
    else
      var last := table[|table| - 1];
      SetLabels(table[..|table| - 1], ku) + (if last.0 in ku then [last.1] else [])
  }

  /** The loop over `kuActionToString`: collect the label of every bit of the
      table that is set in ku. */
  method KeyUsageText(ku: KeyUsage) returns (labels: seq<string>)
    ensures labels == SetLabels(KeyUsageLabels, ku)
  {
    labels := [];
    for i := 0 to |KeyUsageLabels|
      invariant labels == SetLabels(KeyUsageLabels[..i], ku)
    {
      assert KeyUsageLabels[..i + 1][..i] == KeyUsageLabels[..i];
      var bit, lbl := KeyUsageLabels[i].0, KeyUsageLabels[i].1;
      if bit in ku {
        labels := labels + [lbl];
      }
    }
    assert KeyUsageLabels[..|KeyUsageLabels|] == KeyUsageLabels;
  }

  lemma {:induction false} SetLabelsMembers(table: seq<(KeyUsageBit, string)>, ku: KeyUsage)
    ensures forall l :: l in SetLabels(table, ku) <==> exists i :: 0 <= i < |table| && table[i].0 in ku && table[i].1 == l
  {
    if table != [] {
      var init := table[..|table| - 1];
      SetLabelsMembers(init, ku);
      assert forall i :: 0 <= i < |init| ==> table[i] == init[i];
    }
  }

  /** Where a bit sits in the key usage table: every bit has an entry. */
  function KeyUsageIndex(b: KeyUsageBit): (i: nat)
    ensures i < |KeyUsageLabels| && KeyUsageLabels[i].0 == b
  {
    match b
    case DigitalSignature => 0
    case ContentCommitment => 1
    case KeyEncipherment => 2
    case DataEncipherment => 3
    case KeyAgreement => 4
    case CertSign => 5
    case CRLSign => 6
    case EncipherOnly => 7
    case DecipherOnly => 8
  }

  /** No two bits share a label. */
  lemma KeyUsageLabelsDistinct()
    ensures forall i, j :: 0 <= i < j < |KeyUsageLabels| ==> KeyUsageLabels[i].1 != KeyUsageLabels[j].1
  {
    var t := KeyUsageLabels;
    assert t[0].1[0] == 'D' && t[0].1[1] == 'i' && t[0].1[2] == 'g';
    assert t[1].1[0] == 'N';
    assert t[2].1[0] == 'K' && t[2].1[4] == 'E';
    assert t[3].1[0] == 'D' && t[3].1[1] == 'a';
    assert t[4].1[0] == 'K' && t[4].1[4] == 'A';
    assert t[5].1[0] == 'C' && t[5].1[1] == 'e';
    assert t[6].1[0] == 'C' && t[6].1[1] == 'R';
    assert t[7].1[0] == 'E';
    assert t[8].1[0] == 'D' && t[8].1[1] == 'e';
  }

  /** The Key Usage value lists the label of a bit exactly when the bit is set, and
      lists nothing else; it is empty exactly when no bit is set. */
  lemma KeyUsageLabelsExact(ku: KeyUsage)
    ensures forall b :: KeyUsageLabels[KeyUsageIndex(b)].1 in SetLabels(KeyUsageLabels, ku) <==> b in ku
    ensures forall l :: l in SetLabels(KeyUsageLabels, ku) ==>
              exists i :: 0 <= i < |KeyUsageLabels| && KeyUsageLabels[i].0 in ku && KeyUsageLabels[i].1 == l
    ensures SetLabels(KeyUsageLabels, ku) == [] <==> ku == {}
  {
    SetLabelsMembers(KeyUsageLabels, ku);
    KeyUsageLabelsDistinct();
    forall b ensures KeyUsageLabels[KeyUsageIndex(b)].1 in SetLabels(KeyUsageLabels, ku) <==> b in ku {
      var i := KeyUsageIndex(b);
      if KeyUsageLabels[i].1 in SetLabels(KeyUsageLabels, ku) {
        var j :| 0 <= j < |KeyUsageLabels| && KeyUsageLabels[j].0 in ku && KeyUsageLabels[j].1 == KeyUsageLabels[i].1;
        assert i == j;
      }
    }
    if ku != {} {
      var b :| b in ku;
      assert KeyUsageLabels[KeyUsageIndex(b)].1 in SetLabels(KeyUsageLabels, ku);
    }
    if SetLabels(KeyUsageLabels, ku) != [] {
      assert SetLabels(KeyUsageLabels, ku)[0] in SetLabels(KeyUsageLabels, ku);
    }
  }

  // ---------------------------------------------------------------------------
  // Extended key usage labels

  /** The label of the first table entry for eku, if any. */
  function EkuLabel(table: seq<(ExtKeyUsage, string)>, eku: ExtKeyUsage): Option<string>
  {
    if table == [] then None
    else if table[0].0 == eku then Some(table[0].1)
    else EkuLabel(table[1..], eku)
  }

  /** The inner loop over `ekuActionToString`: stop at the entry for eku. */
  method FindEkuLabel(eku: ExtKeyUsage) returns (lbl: Option<string>)
    ensures lbl == EkuLabel(ExtKeyUsageLabels, eku)
  {
    lbl := None;
    var i := 0;
    while i < |ExtKeyUsageLabels|
      invariant 0 <= i <= |ExtKeyUsageLabels|
      invariant EkuLabel(ExtKeyUsageLabels, eku) == EkuLabel(ExtKeyUsageLabels[i..], eku)
    {
      assert ExtKeyUsageLabels[i..][1..] == ExtKeyUsageLabels[i + 1..];
      if ExtKeyUsageLabels[i].0 == eku {
        lbl := Some(ExtKeyUsageLabels[i].1);
        break;
      }
      i := i + 1;
    }
  }

  /** The table holds the fourteen purposes at their own codes. */
  lemma {:induction false} EkuLabelAt(table: seq<(ExtKeyUsage, string)>, base: int, eku: ExtKeyUsage)
    requires forall i :: 0 <= i < |table| ==> table[i].0 == base + i
    ensures base <= eku < base + |table| ==> EkuLabel(table, eku) == Some(table[eku - base].1)
    ensures !(base <= eku < base + |table|) ==> EkuLabel(table, eku) == None
  {
    if table != [] {
      EkuLabelAt(table[1..], base + 1, eku);
    }
  }

  /** A purpose has a lbl exactly when it is one of the fourteen the library
      defines; any other value is unknown and gets none. */
  lemma EkuLabelKnown(eku: ExtKeyUsage)
    ensures EkuLabel(ExtKeyUsageLabels, eku).Some? <==>
              ExtKeyUsageAny <= eku <= ExtKeyUsageMicrosoftKernelCodeSigning
    ensures EkuLabel(ExtKeyUsageLabels, eku).Some? ==>
              EkuLabel(ExtKeyUsageLabels, eku).value == ExtKeyUsageLabels[eku].1
  {
    var t := ExtKeyUsageLabels;
    assert t[0].0 == 0 && t[1].0 == 1 && t[2].0 == 2 && t[3].0 == 3 && t[4].0 == 4 && t[5].0 == 5 && t[6].0 == 6;
    assert t[7].0 == 7 && t[8].0 == 8 && t[9].0 == 9 && t[10].0 == 10 && t[11].0 == 11 && t[12].0 == 12 && t[13].0 == 13;
    EkuLabelAt(ExtKeyUsageLabels, 0, eku);
  }

  /** The labels of the known purposes, in the certificate's order. */
  function EkuLabels(ekus: seq<ExtKeyUsage>): seq<string>
  {
    if ekus == [] then []
    else
      var lbl := EkuLabel(ExtKeyUsageLabels, ekus[|ekus| - 1]);
      EkuLabels(ekus[..|ekus| - 1]) + (if lbl.Some? then [lbl.value] else [])
  }

  /** The outer loop over the certificate's purposes. */
  method ExtKeyUsageText(ekus: seq<ExtKeyUsage>) returns (labels: seq<string>)
    ensures labels == EkuLabels(ekus)
  {
    labels := [];
    for i := 0 to |ekus|
      invariant labels == EkuLabels(ekus[..i])
    {
      assert ekus[..i + 1][..i] == ekus[..i];
      var lbl := FindEkuLabel(ekus[i]);
      if lbl.Some? {
        labels := labels + [lbl.value];
      }
    }
    assert ekus[..|ekus|] == ekus;
  }

  /** The known purposes, in order. */
  function Known(ekus: seq<ExtKeyUsage>): (r: seq<ExtKeyUsage>)
    ensures forall i :: 0 <= i < |r| ==> ExtKeyUsageAny <= r[i] <= ExtKeyUsageMicrosoftKernelCodeSigning
  {
    if ekus == [] then []
    else
      var e := ekus[|ekus| - 1];
      Known(ekus[..|ekus| - 1]) + (if ExtKeyUsageAny <= e <= ExtKeyUsageMicrosoftKernelCodeSigning then [e] else [])
  }

  /** Unknown purposes are dropped and the known ones keep their order: the k-th
      lbl is the lbl of the k-th known purpose. */
  lemma {:induction false} EkuLabelsOfKnown(ekus: seq<ExtKeyUsage>)
    ensures |EkuLabels(ekus)| == |Known(ekus)|
    ensures forall k :: 0 <= k < |Known(ekus)| ==> EkuLabels(ekus)[k] == ExtKeyUsageLabels[Known(ekus)[k]].1
  {
    if ekus != [] {
      var init := ekus[..|ekus| - 1];
      EkuLabelsOfKnown(init);
      EkuLabelKnown(ekus[|ekus| - 1]);
    }
  }

  /** A list of nothing but known purposes loses none of them. */
  lemma {:induction false} KnownAll(ekus: seq<ExtKeyUsage>)
    requires forall i :: 0 <= i < |ekus| ==> ExtKeyUsageAny <= ekus[i] <= ExtKeyUsageMicrosoftKernelCodeSigning
    ensures Known(ekus) == ekus
  {
    if ekus != [] {
      KnownAll(ekus[..|ekus| - 1]);
    }
  }

  // ---------------------------------------------------------------------------
  // One certificate

  /** The `san` list: the DNS names followed by the string forms of the addresses. */
  method AltNameList(dnsNames: seq<string>, ipAddresses: seq<string>) returns (san: seq<string>)
    ensures san == dnsNames + ipAddresses
  {
    san := dnsNames;
    for i := 0 to |ipAddresses|
      invariant san == dnsNames + ipAddresses[..i]
    {
      assert ipAddresses[..i + 1] == ipAddresses[..i] + [ipAddresses[i]];
      san := san + [ipAddresses[i]];
    }
    assert ipAddresses[..|ipAddresses|] == ipAddresses;
  }

  /** Position in the certificate order; the separator comes before everything. */
  function Rank(f: Field): nat
  {
    match f
    case Separator => 0
    case Issuer => 1
    case Subject => 2
    case AltName => 3
    case IsCA => 4
    case SerialNumber => 5
    case EffectiveDate => 6
    case ExpirationDate => 7
    case KeyUsageField => 8
    case ExtKeyUsageField => 9
  }

  /** When a field of a certificate is written. */
  predicate Shown(c: Certificate, f: Field)
  {
    match f
    case Issuer => c.subject != c.issuer
    case Subject => c.subject != ""
    case AltName => |c.dnsNames| + |c.ipAddresses| > 0
    case KeyUsageField => c.keyUsage != {}
    case ExtKeyUsageField => |c.extKeyUsage| > 0
    case Separator => false
    case _ => true
  }

  /** The value written for a field of a certificate. */
  function ValueOf(c: Certificate, f: Field): string
  {
    match f
    case Issuer => c.issuer
    case Subject => c.subject
    case AltName => Join(c.dnsNames + c.ipAddresses, ", ")
    case IsCA => BoolText(c.isCA)
    case SerialNumber => SerialText(c.serialNumber)
    case EffectiveDate => c.notBefore
    case ExpirationDate => c.notAfter
    case KeyUsageField => Join(SetLabels(KeyUsageLabels, c.keyUsage), ", ")
    case ExtKeyUsageField => Join(EkuLabels(c.extKeyUsage), ", ")
    case Separator => ""
  }

  /** What a field contributes: its entry when it is shown, nothing otherwise. */
  function Contribution(c: Certificate, f: Field): seq<Entry>
  {
    if Shown(c, f) then [Entry(f, ValueOf(c, f))] else []
  }

  /** The certificate field of each rank. */
  function FieldOfRank(k: nat): (f: Field)
    requires 1 <= k <= 9
    ensures Rank(f) == k
  {
    if k == 1 then Issuer
    else if k == 2 then Subject
    else if k == 3 then AltName
    else if k == 4 then IsCA
    else if k == 5 then SerialNumber
    else if k == 6 then EffectiveDate
    else if k == 7 then ExpirationDate
    else if k == 8 then KeyUsageField
    else ExtKeyUsageField
  }

  /** Reference definition: what the fields of rank 1 to n contribute, in rank
      order. */
  function Entries(c: Certificate, n: nat): seq<Entry>
    requires n <= 9
  {
    if n == 0 then [] else Entries(c, n - 1) + Contribution(c, FieldOfRank(n))
  }

  /** The entries of one certificate: every field considered, in rank order. */
  function CertEntries(c: Certificate): seq<Entry>
  {
    Entries(c, 9)
  }

  /** Appending the next field's contribution extends the entries by one rank. */
  lemma AppendNext(result: seq<Entry>, r: seq<Entry>, c: Certificate, k: nat)
    requires 1 <= k <= 9 && r == result + Entries(c, k - 1)
    ensures r + Contribution(c, FieldOfRank(k)) == result + Entries(c, k)
  {
    assert (result + Entries(c, k - 1)) + Contribution(c, FieldOfRank(k))
        == result + (Entries(c, k - 1) + Contribution(c, FieldOfRank(k)));
  }

  /** The body of the certificate loop of `GetCertInfo`: append each field that is
      shown, in the source's order. */
  method AppendCertEntries(result: seq<Entry>, c: Certificate) returns (r: seq<Entry>)
    ensures r == result + CertEntries(c)
  {
    r := AppendNames(result, c);
    r := AppendFixed(r, c, result);
    r := AppendUsages(r, c, result);
  }

  /** Issuer, Subject and Alternative Name, each when shown. */
  method AppendNames(result: seq<Entry>, c: Certificate) returns (r: seq<Entry>)
    ensures r == result + Entries(c, 3)
  {
    r := result;
    assert r == result + Entries(c, 0);
    ghost var r0 := r;
    if c.subject != c.issuer {
      r := r + [Entry(Issuer, c.issuer)];
    }
    assert r == r0 + Contribution(c, Issuer);
    AppendNext(result, r0, c, 1);
    r0 := r;
    if c.subject != "" {
      r := r + [Entry(Subject, c.subject)];
    }
    assert r == r0 + Contribution(c, Subject);
    AppendNext(result, r0, c, 2);
    r0 := r;
    var san := AltNameList(c.dnsNames, c.ipAddresses);
    if |san| > 0 {
      r := r + [Entry(AltName, Join(san, ", "))];
    }
    assert r == r0 + Contribution(c, AltName);
    AppendNext(result, r0, c, 3);
  }

  /** Is CA, Serial Number and the two dates, always. */
  method AppendFixed(acc: seq<Entry>, c: Certificate, ghost result: seq<Entry>) returns (r: seq<Entry>)
    requires acc == result + Entries(c, 3)
    ensures r == result + Entries(c, 7)
  {
    r := acc;
    ghost var r0 := r;
    r := r + [Entry(IsCA, BoolText(c.isCA))];
    AppendNext(result, r0, c, 4);
    r0 := r;
    var serial := FormatSerial(c.serialNumber);
    r := r + [Entry(SerialNumber, serial)];
    AppendNext(result, r0, c, 5);
    r0 := r;
    r := r + [Entry(EffectiveDate, c.notBefore)];
    AppendNext(result, r0, c, 6);
    r0 := r;
    r := r + [Entry(ExpirationDate, c.notAfter)];
    AppendNext(result, r0, c, 7);
  }

  /** Key Usage and Extended Key Usage, each when non-empty. */
  method AppendUsages(acc: seq<Entry>, c: Certificate, ghost result: seq<Entry>) returns (r: seq<Entry>)
    requires acc == result + Entries(c, 7)
    ensures r == result + Entries(c, 9)
  {
    var ku := KeyUsageEntry(c);
    r := acc + ku;
    AppendNext(result, acc, c, 8);
    var eku := ExtKeyUsageEntry(c);
    AppendNext(result, r, c, 9);
    r := r + eku;
  }

  /** The Key Usage entry: the labels of the set bits, when any bit is set. */
  method KeyUsageEntry(c: Certificate) returns (part: seq<Entry>)
    ensures part == Contribution(c, KeyUsageField)
  {
    part := [];
    if c.keyUsage != {} {
      var ku := KeyUsageText(c.keyUsage);
      part := [Entry(KeyUsageField, Join(ku, ", "))];
    }
  }

  /** The Extended Key Usage entry: the labels of the known purposes, when the
      certificate lists any purpose. */
  method ExtKeyUsageEntry(c: Certificate) returns (part: seq<Entry>)
    ensures part == Contribution(c, ExtKeyUsageField)
  {
    part := [];
    if |c.extKeyUsage| > 0 {
      var eku := ExtKeyUsageText(c.extKeyUsage);
      part := [Entry(ExtKeyUsageField, Join(eku, ", "))];
    }
  }

  /** The fields of rank 1 to n contribute exactly the shown ones among them, each
      with its value. */
  lemma {:induction false} EntriesMembers(c: Certificate, n: nat)
    requires n <= 9
    ensures forall e :: e in Entries(c, n) <==>
              e.field != Separator && Rank(e.field) <= n && Shown(c, e.field) && e.value == ValueOf(c, e.field)
  {
    if n > 0 {
      EntriesMembers(c, n - 1);
      var f := FieldOfRank(n);
      forall g: Field | g != Separator && Rank(g) == n
        ensures g == f
      {
        assert FieldOfRank(Rank(g)) == g;
      }
    }
  }

  /** A field contributes at most one entry, and only for itself. */
  lemma ContributionField(c: Certificate, f: Field)
    ensures |Contribution(c, f)| <= 1
    ensures forall e :: e in Contribution(c, f) ==> e.field == f
  {
  }

  /** The fields of rank 1 to n contribute in strictly increasing rank, one entry
      at most per field. */
  lemma {:induction false} EntriesOrdered(c: Certificate, n: nat)
    requires n <= 9
    ensures forall e :: e in Entries(c, n) ==> 1 <= Rank(e.field) <= n
    ensures forall i, j :: 0 <= i < j < |Entries(c, n)| ==>
              Rank(Entries(c, n)[i].field) < Rank(Entries(c, n)[j].field)
    ensures |Entries(c, n)| <= n
  {
    if n > 0 {
      EntriesOrdered(c, n - 1);
      var prev, part := Entries(c, n - 1), Contribution(c, FieldOfRank(n));
      ContributionField(c, FieldOfRank(n));
      var all := prev + part;
      assert Entries(c, n) == all;
      forall e | e in all
        ensures 1 <= Rank(e.field) <= n
      {
        if e !in prev {
          assert e in part;
        }
      }
      forall i, j | 0 <= i < j < |all|
        ensures Rank(all[i].field) < Rank(all[j].field)
      {
        assert all[i] == prev[i];
        if j < |prev| {
          assert all[j] == prev[j];
        } else {
          assert all[j] in part;
          assert prev[i] in prev;
        }
      }
    }
  }

  /** A certificate's entries hold each field at most once, in the fixed order
      Issuer, Subject, Alternative Name, Is CA, Serial Number, Effective Date,
      Expiration Date, Key Usage, Extended Key Usage (so at most nine); an entry
      appears exactly when its field is shown, with that field's value, and no
      entry is a separator. */
  lemma CertEntriesShape(c: Certificate)
    ensures forall i, j :: 0 <= i < j < |CertEntries(c)| ==>
              Rank(CertEntries(c)[i].field) < Rank(CertEntries(c)[j].field)
    ensures |CertEntries(c)| <= 9
    ensures forall e :: e in CertEntries(c) <==> e.field != Separator && Shown(c, e.field) && e.value == ValueOf(c, e.field)
  {
    EntriesMembers(c, 9);
    EntriesOrdered(c, 9);
  }

  /** Is CA, Serial Number and both dates are listed for every certificate. */
  lemma CertEntriesAlways(c: Certificate)
    ensures Entry(IsCA, BoolText(c.isCA)) in CertEntries(c)
    ensures Entry(SerialNumber, SerialText(c.serialNumber)) in CertEntries(c)
    ensures Entry(EffectiveDate, c.notBefore) in CertEntries(c)
    ensures Entry(ExpirationDate, c.notAfter) in CertEntries(c)
  {
    var all := CertEntries(c);
    EntriesMembers(c, 9);
    var isCA, serial := Entry(IsCA, BoolText(c.isCA)), Entry(SerialNumber, SerialText(c.serialNumber));
    var from, until := Entry(EffectiveDate, c.notBefore), Entry(ExpirationDate, c.notAfter);
    assert ValueOf(c, IsCA) == isCA.value && ValueOf(c, SerialNumber) == serial.value;
    assert ValueOf(c, EffectiveDate) == from.value && ValueOf(c, ExpirationDate) == until.value;
    assert isCA in all && serial in all && from in all && until in all;
  }

  // ---------------------------------------------------------------------------
  // GetCertInfo

  /** The separator before the k-th certificate of a bundle. */
  function SeparatorEntry(k: nat): Entry
  {
    Entry(Separator, "Certificate Number " + Decimal(k))
  }

  /** The entries of a sequence of certificates, each preceded by its numbered
      separator when `numbered` holds. */
  function Listing(certs: seq<Certificate>, numbered: bool): seq<Entry>
  {
    if certs == [] then []
    else
      Listing(certs[..|certs| - 1], numbered)
        + (if numbered then [SeparatorEntry(|certs|)] else [])
        + CertEntries(certs[|certs| - 1])
  }

  /** What `GetCertInfo` returns: separators only when the bundle holds more than
      one certificate. */
  function CertInfoSpec(certBytes: Bytes, lib: Lib): Result<seq<Entry>>
    requires DecodeShrinks(lib.decode)
  {
    match ParseCertsSpec(certBytes, lib)
    case Err(e) => Err(e)
    case Ok(certs) => Ok(Listing(certs, |certs| > 1))
  }

  method GetCertInfo(certBytes: Bytes, lib: Lib) returns (r: Result<seq<Entry>>)
    requires DecodeShrinks(lib.decode)
    ensures r == CertInfoSpec(certBytes, lib)
  {
    var parsed := ParseCerts(certBytes, lib);
    if parsed.Err? {
      return Err(parsed.error);
    }
    var certs := parsed.value;
    var result: seq<Entry> := [];
    var index := 1;
    for i := 0 to |certs|
      invariant result == Listing(certs[..i], |certs| > 1)
      invariant |certs| > 1 ==> index == i + 1
    {
      assert certs[..i + 1][..i] == certs[..i];
      if |certs| > 1 {
        result := result + [Entry(Separator, "Certificate Number " + Decimal(index))];
        index := index + 1;
      }
      result := AppendCertEntries(result, certs[i]);
    }
    assert certs[..|certs|] == certs;
    return Ok(result);
  }

  /** The values of the separator entries, in order. */
  function SeparatorValues(entries: seq<Entry>): seq<string>
  {
    if entries == [] then []
    else
      var e := entries[|entries| - 1];
      SeparatorValues(entries[..|entries| - 1]) + (if e.field == Separator then [e.value] else [])
  }

  lemma {:induction false} SeparatorValuesAppend(a: seq<Entry>, b: seq<Entry>)
    ensures SeparatorValues(a + b) == SeparatorValues(a) + SeparatorValues(b)
    decreases |b|
  {
    if b == [] {
      assert a + b == a;
    } else {
      var init := b[..|b| - 1];
      SeparatorValuesAppend(a, init);
      assert (a + b)[..|a + b| - 1] == a + init;
    }
  }

  lemma {:induction false} NoSeparatorIn(entries: seq<Entry>)
    requires forall e :: e in entries ==> e.field != Separator
    ensures SeparatorValues(entries) == []
  {
    if entries != [] {
      NoSeparatorIn(entries[..|entries| - 1]);
    }
  }

  /** "Certificate Number 1" to "Certificate Number n". */
  function Numbers(n: nat): (r: seq<string>)
    ensures |r| == n
    ensures forall k :: 0 <= k < n ==> r[k] == "Certificate Number " + Decimal(k + 1)
  {
    if n == 0 then [] else Numbers(n - 1) + ["Certificate Number " + Decimal(n)]
  }

  /** No certificate entry is a separator. */
  lemma CertEntriesNoSeparator(c: Certificate)
    ensures SeparatorValues(CertEntries(c)) == []
  {
    CertEntriesShape(c);
    NoSeparatorIn(CertEntries(c));
  }

  /** In a bundle of n certificates the separators read "Certificate Number 1" to
      "Certificate Number n" in parse order; without numbering there are none. */
  lemma {:induction false} ListingSeparators(certs: seq<Certificate>, numbered: bool)
    ensures SeparatorValues(Listing(certs, numbered)) == if numbered then Numbers(|certs|) else []
  {
    if certs != [] {
      var init, c := certs[..|certs| - 1], certs[|certs| - 1];
      ListingSeparators(init, numbered);
      CertEntriesNoSeparator(c);
      var sep := if numbered then [SeparatorEntry(|certs|)] else [];
      SeparatorValuesAppend(Listing(init, numbered) + sep, CertEntries(c));
      SeparatorValuesAppend(Listing(init, numbered), sep);
      assert SeparatorValues(sep) == (if numbered then [SeparatorEntry(|certs|).value] else []) by {
        if numbered {
          assert sep[..0] == [];
        }
      }
    }
  }

  /** A bundle of one certificate is rendered as that certificate's entries alone. */
  lemma SingleCertificate(certBytes: Bytes, lib: Lib)
    requires DecodeShrinks(lib.decode)
    requires ParseCertsSpec(certBytes, lib).Ok? && |ParseCertsSpec(certBytes, lib).value| == 1
    ensures CertInfoSpec(certBytes, lib) == Ok(CertEntries(ParseCertsSpec(certBytes, lib).value[0]))
  {
    var certs := ParseCertsSpec(certBytes, lib).value;
    assert certs[..0] == [];
    assert Listing(certs, false) == Listing([], false) + [] + CertEntries(certs[0]);
    assert [] + [] + CertEntries(certs[0]) == CertEntries(certs[0]);
  }

  // ---------------------------------------------------------------------------
  // GetCertRequestInfo and GetCertOrRequestInfo

  /** The entries of a certificate request. */
  function RequestEntries(csr: Request): seq<Entry>
  {
    (if csr.subject != "" then [Entry(Subject, csr.subject)] else [])
      + (if |csr.dnsNames| + |csr.ipAddresses| > 0
         then [Entry(AltName, Join(csr.dnsNames + csr.ipAddresses, ", "))] else [])
  }

  /** A request gives at most two entries: the subject when it is non-empty, then
      the alternative names when there are any, valued like a certificate's. */
  lemma RequestEntriesShape(csr: Request)
    ensures |RequestEntries(csr)| <= 2
    ensures Entry(Subject, csr.subject) in RequestEntries(csr) <==> csr.subject != ""
    ensures (exists e :: e in RequestEntries(csr) && e.field == AltName) <==> |csr.dnsNames| + |csr.ipAddresses| > 0
    ensures forall e :: e in RequestEntries(csr) ==>
              e.field in {Subject, AltName}
              && (e.field == AltName ==> e.value == Join(csr.dnsNames + csr.ipAddresses, ", "))
    ensures |RequestEntries(csr)| == 2 ==> RequestEntries(csr)[0].field == Subject
  {
    var e := Entry(AltName, Join(csr.dnsNames + csr.ipAddresses, ", "));
    if |csr.dnsNames| + |csr.ipAddresses| > 0 {
      assert e in RequestEntries(csr);
    }
  }

  /** What `GetCertRequestInfo` returns. */
  function RequestInfoSpec(bytes: Bytes, lib: Lib): Result<seq<Entry>>
  {
    match lib.decode(bytes)
    case None => Err("Failed to parse certificate request")
    case Some(d) =>
      if d.block.blockType != CertReqBlockType then Err("Not a Certificate Request")
      else
        match lib.parseCertificateRequest(d.block.bytes)
        case Err(_) => Err("Failed to parse certificate request")
        case Ok(csr) => Ok(RequestEntries(csr))
  }

  method GetCertRequestInfo(bytes: Bytes, lib: Lib) returns (r: Result<seq<Entry>>)
    ensures r == RequestInfoSpec(bytes, lib)
  {
    var block := lib.decode(bytes);
    if block.None? {
      return Err("Failed to parse certificate request");
    }
    if block.value.block.blockType != CertReqBlockType {
      return Err("Not a Certificate Request");
    }
    var csr := lib.parseCertificateRequest(block.value.block.bytes);
    if csr.Err? {
      return Err("Failed to parse certificate request");
    }
    var result: seq<Entry> := [];
    if csr.value.subject != "" {
      result := result + [Entry(Subject, csr.value.subject)];
    }
    ghost var subjectPart := result;
    var san := AltNameList(csr.value.dnsNames, csr.value.ipAddresses);
    if |san| > 0 {
      result := result + [Entry(AltName, Join(san, ", "))];
    }
    assert result == subjectPart + (if |san| > 0 then [Entry(AltName, Join(san, ", "))] else []);
    assert result == RequestEntries(csr.value);
    assert RequestInfoSpec(bytes, lib) == Ok(RequestEntries(csr.value));
    return Ok(result);
  }

  /** What `GetCertOrRequestInfo` returns. */
  function CertOrRequestInfoSpec(bytes: Bytes, lib: Lib): Result<seq<Entry>>
    requires DecodeShrinks(lib.decode)
  {
    match lib.decode(bytes)
    case None => Err("Failed to parse certificate or csr")
    case Some(d) =>
      if d.block.blockType == CertReqBlockType then RequestInfoSpec(bytes, lib)
      else CertInfoSpec(bytes, lib)
  }

  method GetCertOrRequestInfo(bytes: Bytes, lib: Lib) returns (r: Result<seq<Entry>>)
    requires DecodeShrinks(lib.decode)
    ensures r == CertOrRequestInfoSpec(bytes, lib)
  {
    var block := lib.decode(bytes);
    if block.None? {
      return Err("Failed to parse certificate or csr");
    }
    if block.value.block.blockType == CertReqBlockType {
      r := GetCertRequestInfo(bytes, lib);
    } else {
      r := GetCertInfo(bytes, lib);
    }
  }

  /** The dispatch: no decodable block is an error, a request block takes the
      request path (which then cannot report a wrong block type), and every other
      block type, key labels included, takes the certificate path. */
  lemma Dispatch(bytes: Bytes, lib: Lib)
    requires DecodeShrinks(lib.decode)
    ensures lib.decode(bytes).None? ==> CertOrRequestInfoSpec(bytes, lib) == Err("Failed to parse certificate or csr")
    ensures lib.decode(bytes).Some? && lib.decode(bytes).value.block.blockType == CertReqBlockType ==>
              CertOrRequestInfoSpec(bytes, lib) == RequestInfoSpec(bytes, lib)
              && RequestInfoSpec(bytes, lib) != Err("Not a Certificate Request")
    ensures lib.decode(bytes).Some? && lib.decode(bytes).value.block.blockType != CertReqBlockType ==>
              CertOrRequestInfoSpec(bytes, lib) == CertInfoSpec(bytes, lib)
  {
  }
}
