/** The tail shared by `NewCACertKey` (pkg/cert/cert.go), `NewSignedCertKey`
    (pkg/cert/sign.go) and `NewCertKey` (pkg/cert/generate.go): create the
    certificate from a template, then PEM-encode the certificate and the PKCS #1
    form of the new private key. */
module Issue {
  import opened Wrappers
  import opened X509

  /** The validity window every template uses: from `now` to `now + duration`. */
  predicate ValidFor(t: Template, now: Time, duration: Duration)
  {
    t.notBefore == now && t.notAfter == now + duration
  }

  /** The PEM pair a successful creation returns: the certificate block first, the
      key block second; the first failing step's error otherwise. */
  function Issued(lib: Lib, template: Template, parent: Parent, pub: PublicKey, signer: PrivateKey,
                  key: PrivateKey): (r: Result<(Bytes, Bytes)>)
    ensures lib.createCertificate(template, parent, pub, signer).Err? ==>
              r == Err(lib.createCertificate(template, parent, pub, signer).error)
    ensures r.Ok? <==>
              && lib.createCertificate(template, parent, pub, signer).Ok?
              && lib.encode(Block(CertBlockType, lib.createCertificate(template, parent, pub, signer).value)).Ok?
              && lib.encode(Block(RSAKeyBlockType, lib.marshalPkcs1(key))).Ok?
    ensures r.Ok? ==>
              r.value.0 == lib.encode(Block(CertBlockType, lib.createCertificate(template, parent, pub, signer).value)).value
              && r.value.1 == lib.encode(Block(RSAKeyBlockType, lib.marshalPkcs1(key))).value
  {
    match lib.createCertificate(template, parent, pub, signer)
    case Err(e) => Err(e)
    case Ok(der) =>
      match lib.encode(Block(CertBlockType, der))
      case Err(e) => Err(e)
      case Ok(certPem) =>
        match lib.encode(Block(RSAKeyBlockType, lib.marshalPkcs1(key)))
        case Err(e) => Err(e)
        case Ok(keyPem) => Ok((certPem, keyPem))
  }

  /** `x509.CreateCertificate`, then `pem.Encode` of the certificate block and of
      the key block, stopping at the first error. */
  method CreateAndEncode(lib: Lib, template: Template, parent: Parent, pub: PublicKey, signer: PrivateKey,
                         key: PrivateKey) returns (r: Result<(Bytes, Bytes)>)
    ensures r == Issued(lib, template, parent, pub, signer, key)
  {
    var der := lib.createCertificate(template, parent, pub, signer);
    if der.Err? {
      return Err(der.error);
    }
    var certPem := lib.encode(Block(CertBlockType, der.value));
    if certPem.Err? {
      return Err(certPem.error);
    }
    var keyPem := lib.encode(Block(RSAKeyBlockType, lib.marshalPkcs1(key)));
    if keyPem.Err? {
      return Err(keyPem.error);
    }
    return Ok((certPem.value, keyPem.value));
  }
}
