/** pkg/cert/sign.go: `NewSignedCertKey` issues a certificate for a new key under
    an existing CA. The template is a copy of the descriptor with a validity window
    from `now`, BasicConstraintsValid set, IsCA taken from the caller, and the
    lower-cased common name as the DNS name when the descriptor has none. */
module Sign {
  import opened Wrappers
  import opened Text
  import opened Lists
  import opened X509
  import opened Common
  import opened Issue

  /** The template `NewSignedCertKey` hands to `x509.CreateCertificate`. */
  function SignedTemplate(info: CertInfo, isCA: bool, now: Time): Template
  {
    Template(info.serialNumber, info.subject, now, now + info.duration, info.keyUsage, info.extKeyUsage,
             true, isCA,
             if |info.dnsNames| == 0 then [ToLower(info.subject.commonName)] else info.dnsNames,
             info.ipAddrs)
  }

  /** What `NewSignedCertKey` returns. `keyDraw` is the outcome of the random key
      generation and `now` the clock reading; the certificate has the CA
      certificate as parent, the new key's public half as subject key, and is
      signed by the CA key. */
  function NewSignedCertKeySpec(caCert: Certificate, caKey: PrivateKey, info: CertInfo, keyDraw: Result<PrivateKey>,
                                isCA: bool, now: Time, lib: Lib): Result<(Bytes, Bytes)>
  {
    if keyDraw.Err? then Err(keyDraw.error)
    else Issued(lib, SignedTemplate(info, isCA, now), IssuedBy(caCert), lib.publicOf(keyDraw.value), caKey, keyDraw.value)
  }

  /** `NewSignedCertKey`. */
  method NewSignedCertKey(caCert: Certificate, caKey: PrivateKey, info: CertInfo, keyDraw: Result<PrivateKey>,
                          isCA: bool, now: Time, lib: Lib) returns (r: Result<(Bytes, Bytes)>)
    ensures r == NewSignedCertKeySpec(caCert, caKey, info, keyDraw, isCA, now, lib)
  {
    if keyDraw.Err? {
      return Err(keyDraw.error);
    }
    var key := keyDraw.value;
    var template := Template(info.serialNumber, info.subject, now, now + info.duration, info.keyUsage,
                             info.extKeyUsage, true, isCA, info.dnsNames, info.ipAddrs);
    if |template.dnsNames| == 0 {
      template := template.(dnsNames := [ToLower(info.subject.commonName)]);
    }
    r := CreateAndEncode(lib, template, IssuedBy(caCert), lib.publicOf(key), caKey, key);
  }

  /** The template carries the descriptor's serial, subject, usages and IP
      addresses unchanged, is valid from `now` for the descriptor's duration, has
      BasicConstraintsValid set and IsCA equal to the caller's flag whatever the
      descriptor says, and keeps the descriptor's DNS names when there are any,
      IP addresses or not. For a descriptor `NewCertInfo` built, it always has at
      least one DNS name and none is empty. */
  lemma SignedTemplateFields(info: CertInfo, isCA: bool, now: Time, parseIP: string -> Option<IP>,
                             ipString: IP -> string)
    ensures var t := SignedTemplate(info, isCA, now);
      && t.serialNumber == info.serialNumber && t.subject == info.subject
      && t.keyUsage == info.keyUsage && t.extKeyUsage == info.extKeyUsage && t.ipAddresses == info.ipAddrs
      && ValidFor(t, now, info.duration)
      && t.basicConstraintsValid && t.isCA == isCA
      && (info.dnsNames != [] ==> t.dnsNames == info.dnsNames)
      && (info.dnsNames == [] ==> t.dnsNames == [ToLower(info.subject.commonName)])
    ensures ValidCertInfo(info, parseIP, ipString) ==>
              var t := SignedTemplate(info, isCA, now);
              |t.dnsNames| >= 1 && forall d :: d in t.dnsNames ==> d != ""
  {
  }

  /** The key generation error comes first; after it, the PEM pair is returned
      exactly when the library creates the certificate from the template under the
      CA certificate, for the new key's public half and signed by the CA key, and
      both blocks encode. The key block holds the new key, never the CA key. */
  lemma NewSignedCertKeyOutcome(caCert: Certificate, caKey: PrivateKey, info: CertInfo, keyDraw: Result<PrivateKey>,
                                isCA: bool, now: Time, lib: Lib)
    ensures var r := NewSignedCertKeySpec(caCert, caKey, info, keyDraw, isCA, now, lib);
      && (keyDraw.Err? ==> r == Err(keyDraw.error))
      && (r.Ok? <==>
            keyDraw.Ok?
            && lib.createCertificate(SignedTemplate(info, isCA, now), IssuedBy(caCert), lib.publicOf(keyDraw.value), caKey).Ok?
            && lib.encode(Block(CertBlockType, lib.createCertificate(SignedTemplate(info, isCA, now), IssuedBy(caCert),
                                                                     lib.publicOf(keyDraw.value), caKey).value)).Ok?
            && lib.encode(Block(RSAKeyBlockType, lib.marshalPkcs1(keyDraw.value))).Ok?)
      && (r.Ok? ==> r.value.1 == lib.encode(Block(RSAKeyBlockType, lib.marshalPkcs1(keyDraw.value))).value)
  {
  }
}
