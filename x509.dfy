/** The library boundary of the certificate code: the values it exchanges with Go's
    `crypto/x509`, `crypto/x509/pkix`, `encoding/pem` and `net` packages, and those
    packages' operations as function values. The operations are parameters of the
    model (fields of `Lib`), so nothing is assumed about them beyond what a
    member's `requires` states. */
module X509 {
  import opened Wrappers

  type byte = x: int | 0 <= x < 256
  type Bytes = seq<byte>

  /** `net.IP`: the address bytes as `net.ParseIP` returns them. */
  type IP = Bytes

  /** An instant, in nanoseconds, and a `time.Duration`, in nanoseconds. */
  type Time = int
  type Duration = int

  /** PEM block labels (pkg/cert/common.go:16-22). */
  const CertBlockType := "CERTIFICATE"
  const CertReqBlockType := "CERTIFICATE REQUEST"
  const ECKeyBlockType := "EC PRIVATE KEY"
  const RSAKeyBlockType := "RSA PRIVATE KEY"
  const PrivateKeyBlockType := "PRIVATE KEY"

  /** The nine bits of `x509.KeyUsage`, in bit order (DigitalSignature is 1 << 0,
      DecipherOnly is 1 << 8). A key usage value is the set of its set bits, so
      `|` is union, `ku != 0` is non-emptiness and `key & ku == key` is membership. */
  datatype KeyUsageBit =
    | DigitalSignature | ContentCommitment | KeyEncipherment | DataEncipherment
    | KeyAgreement | CertSign | CRLSign | EncipherOnly | DecipherOnly

  type KeyUsage = set<KeyUsageBit>

  /** `x509.ExtKeyUsage` is an integer; these are the purposes the library names.
      A parsed certificate may carry other values, which the reader drops. */
  type ExtKeyUsage = int
  const ExtKeyUsageAny: ExtKeyUsage := 0
  const ExtKeyUsageServerAuth: ExtKeyUsage := 1
  const ExtKeyUsageClientAuth: ExtKeyUsage := 2
  const ExtKeyUsageCodeSigning: ExtKeyUsage := 3
  const ExtKeyUsageEmailProtection: ExtKeyUsage := 4
  const ExtKeyUsageIPSECEndSystem: ExtKeyUsage := 5
  const ExtKeyUsageIPSECTunnel: ExtKeyUsage := 6
  const ExtKeyUsageIPSECUser: ExtKeyUsage := 7
  const ExtKeyUsageTimeStamping: ExtKeyUsage := 8
  const ExtKeyUsageOCSPSigning: ExtKeyUsage := 9
  const ExtKeyUsageMicrosoftServerGatedCrypto: ExtKeyUsage := 10
  const ExtKeyUsageNetscapeServerGatedCrypto: ExtKeyUsage := 11
  const ExtKeyUsageMicrosoftCommercialCodeSigning: ExtKeyUsage := 12
  const ExtKeyUsageMicrosoftKernelCodeSigning: ExtKeyUsage := 13

  /** `pkix.Name` as far as the certificate code fills it. A nil slice and an
      empty one are both the empty sequence. */
  datatype Name = Name(
    country: seq<string>,
    province: seq<string>,
    locality: seq<string>,
    organization: seq<string>,
    commonName: string)

  const EmptyName := Name([], [], [], [], "")

  /** `pem.Block` and the result of `pem.Decode`: the first block and what follows it. */
  datatype Block = Block(blockType: string, bytes: Bytes)
  datatype Decoded = Decoded(block: Block, rest: Bytes)

  /** A parsed `x509.Certificate`, as the reader sees it: the subject and issuer in
      their `String()` form, the IP addresses in their `String()` form, and the
      validity dates as the opaque text `time.Time.String()` gives. */
  datatype Certificate = Certificate(
    subject: string,
    issuer: string,
    dnsNames: seq<string>,
    ipAddresses: seq<string>,
    isCA: bool,
    serialNumber: nat,
    keyUsage: KeyUsage,
    extKeyUsage: seq<ExtKeyUsage>,
    notBefore: string,
    notAfter: string)

  /** A parsed `x509.CertificateRequest`, as the reader sees it. */
  datatype Request = Request(subject: string, dnsNames: seq<string>, ipAddresses: seq<string>)

  /** Key material the library produces and consumes; never inspected here. */
  datatype PrivateKey = PrivateKey(material: Bytes)
  datatype PublicKey = PublicKey(material: Bytes)

  /** The `x509.Certificate` template handed to `x509.CreateCertificate`. */
  datatype Template = Template(
    serialNumber: nat,
    subject: Name,
    notBefore: Time,
    notAfter: Time,
    keyUsage: KeyUsage,
    extKeyUsage: seq<ExtKeyUsage>,
    basicConstraintsValid: bool,
    isCA: bool,
    dnsNames: seq<string>,
    ipAddresses: seq<IP>)

  /** The `parent` argument of `x509.CreateCertificate`: the template itself for a
      self-issued certificate, or the issuing CA's certificate. */
  datatype Parent = Itself | IssuedBy(ca: Certificate)

  /** The library operations the certificate code calls. */
  datatype Lib = Lib(
    decode: Bytes -> Option<Decoded>,                              // pem.Decode
    encode: Block -> Result<Bytes>,                                // pem.Encode into a buffer
    parseCertificate: Bytes -> Result<Certificate>,                // x509.ParseCertificate
    parseCertificates: Bytes -> Result<seq<Certificate>>,          // x509.ParseCertificates
    parseCertificateRequest: Bytes -> Result<Request>,             // x509.ParseCertificateRequest
    parsePkcs1: Bytes -> Result<PrivateKey>,                       // x509.ParsePKCS1PrivateKey
    parseEc: Bytes -> Result<PrivateKey>,                          // x509.ParseECPrivateKey
    parsePkcs8: Bytes -> Result<PrivateKey>,                       // x509.ParsePKCS8PrivateKey
    marshalPkcs1: PrivateKey -> Bytes,                             // x509.MarshalPKCS1PrivateKey
    publicOf: PrivateKey -> PublicKey,                             // key.Public()
    createCertificate: (Template, Parent, PublicKey, PrivateKey) -> Result<Bytes>,
    parseIP: string -> Option<IP>,                                 // net.ParseIP
    ipString: IP -> string)                                        // net.IP.String

  /** What `pem.Decode` guarantees and the bundle loop relies on to terminate:
      the rest after a decoded block is strictly shorter than the input. */
  ghost predicate DecodeShrinks(decode: Bytes -> Option<Decoded>)
  {
    forall s :: decode(s).Some? ==> |decode(s).value.rest| < |s|
  }
}
