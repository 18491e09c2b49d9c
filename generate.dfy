/** pkg/cert/generate.go: `NewCertKey` creates a self-issued certificate for a new
    key. The template copies every descriptor field, takes BasicConstraintsValid
    and IsCA both from the descriptor, and adds no DNS name of its own. */
module Generate {
  import opened Wrappers
  import opened Text
  import opened X509
  import opened Common
  import opened Issue
  import opened Sign

  /** The template `NewCertKey` hands to `x509.CreateCertificate`. */
  function SelfTemplate(info: CertInfo, now: Time): Template
  {
    Template(info.serialNumber, info.subject, now, now + info.duration, info.keyUsage, info.extKeyUsage,
             info.isCA, info.isCA, info.dnsNames, info.ipAddrs)
  }

  /** What `NewCertKey` returns. `keyDraw` is the outcome of the random key
      generation and `now` the clock reading; the template is its own parent and
      the new key signs it. */
  function NewCertKeySpec(info: CertInfo, keyDraw: Result<PrivateKey>, now: Time, lib: Lib): Result<(Bytes, Bytes)>
  {
    if keyDraw.Err? then Err(keyDraw.error)
    else Issued(lib, SelfTemplate(info, now), Itself, lib.publicOf(keyDraw.value), keyDraw.value, keyDraw.value)
  }

  /** `NewCertKey`. */
  method NewCertKey(info: CertInfo, keyDraw: Result<PrivateKey>, now: Time, lib: Lib) returns (r: Result<(Bytes, Bytes)>)
    ensures r == NewCertKeySpec(info, keyDraw, now, lib)
  {
    if keyDraw.Err? {
      return Err(keyDraw.error);
    }
    var key := keyDraw.value;
    var template := Template(info.serialNumber, info.subject, now, now + info.duration, info.keyUsage,
                             info.extKeyUsage, info.isCA, info.isCA, info.dnsNames, info.ipAddrs);
    r := CreateAndEncode(lib, template, Itself, lib.publicOf(key), key, key);
  }

  /** The template carries every descriptor field unchanged (DNS names included,
      so an empty list stays empty), is valid from `now` for the descriptor's
      duration, and has BasicConstraintsValid and IsCA both equal to the
      descriptor's flag. */
  lemma SelfTemplateFields(info: CertInfo, now: Time)
    ensures var t := SelfTemplate(info, now);
      && t.serialNumber == info.serialNumber && t.subject == info.subject
      && t.keyUsage == info.keyUsage && t.extKeyUsage == info.extKeyUsage
      && t.dnsNames == info.dnsNames && t.ipAddresses == info.ipAddrs
      && ValidFor(t, now, info.duration)
      && t.basicConstraintsValid == info.isCA && t.isCA == info.isCA
  {
  }

  /** The self-issued and the CA-signed templates for the same descriptor and
      clock reading coincide exactly when the descriptor is a CA descriptor with
      DNS names and the caller asks for a CA: otherwise the signed one differs in
      BasicConstraintsValid, IsCA or its default DNS name. */
  lemma TemplatesAgree(info: CertInfo, isCA: bool, now: Time)
    ensures SelfTemplate(info, now) == SignedTemplate(info, isCA, now) <==> info.isCA && isCA && info.dnsNames != []
  {
    if info.dnsNames == [] {
      assert |SignedTemplate(info, isCA, now).dnsNames| == 1;
    }
  }

  /** The key generation error comes first; after it, the PEM pair is returned
      exactly when the library creates the certificate from the template as its
      own parent, for the new key's public half and signed by that same key, and
      both blocks encode; the certificate block comes first. */
  lemma NewCertKeyOutcome(info: CertInfo, keyDraw: Result<PrivateKey>, now: Time, lib: Lib)
    ensures var r := NewCertKeySpec(info, keyDraw, now, lib);
      && (keyDraw.Err? ==> r == Err(keyDraw.error))
      && (r.Ok? <==>
            keyDraw.Ok?
            && lib.createCertificate(SelfTemplate(info, now), Itself, lib.publicOf(keyDraw.value), keyDraw.value).Ok?
            && lib.encode(Block(CertBlockType, lib.createCertificate(SelfTemplate(info, now), Itself,
                                                                     lib.publicOf(keyDraw.value), keyDraw.value).value)).Ok?
            && lib.encode(Block(RSAKeyBlockType, lib.marshalPkcs1(keyDraw.value))).Ok?)
      && (r.Ok? ==>
            r.value.0 == lib.encode(Block(CertBlockType, lib.createCertificate(SelfTemplate(info, now), Itself,
                                                          lib.publicOf(keyDraw.value), keyDraw.value).value)).value)
  {
  }
}
