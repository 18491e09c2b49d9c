# certctl certificate core, in Dafny

This project models the `pkg/cert` package of certctl, a small command-line
certificate tool written in Go. It covers five pieces:

- **The descriptor parser** (`common.go`). It reads a subject line
  (`/C=../ST=../L=../O=../CN=..`), comma-separated key usage and extended key
  usage names, and a subject-alternative-name list. From these it builds the
  `CertInfo` record that later steps turn into a certificate. It also formats
  serial numbers as colon-separated hex and splits PEM input into certificates
  and keys.
- **The older parser in `cert.go`**, with its self-signed CA builder
  `NewCACertKey`. That file re-declares several common.go functions under the
  same names, so it lives in its own module, `Legacy`.
- **The renderer** (`show.go`). It turns a parsed certificate, a certificate
  chain or a certificate request into an ordered list of one-entry
  (field, value) records.
- **Template construction** for a certificate signed by a CA (`sign.go`).
- **Template construction** for a self-issued certificate (`generate.go`).

Every loop of the source is a `method` whose `while`/`for` loop carries the
invariants that tie it to a specification function. The in-place serial
formatter keeps its byte buffer as an `array`. The lemmas then state what those
specification functions promise.

The Go libraries the code calls are not modelled; they are parameters:

- `pem.Decode`, `pem.Encode`, `x509.Parse*`, `x509.CreateCertificate`,
  `x509.MarshalPKCS1PrivateKey`, `key.Public()`, `net.ParseIP` and
  `net.IP.String` are function-valued fields of `X509.Lib`.
- The outcome of RSA key generation, the random serial draw and the clock
  reading are plain arguments.

The modules:

| file | module | models |
|---|---|---|
| wrappers.dfy | Wrappers | `Option` and `Result` (an error is its message) |
| text.dfy | Text | `strings.Split/Join/TrimSpace/TrimLeft/TrimRight/ToLower`, `%d`, `fmt.Sprint(bool)` |
| lists.dfy | Lists | duplicate-free append (`appendEKU`, `containString`/`containsIP` before `append`) against a reference `DedupBy` |
| x509.dfy | X509 | the library boundary: PEM labels, key usage bits, extended key usage codes, `pkix.Name`, certificate, request and template records, `Lib` |
| common.dfy | Common | pkg/cert/common.go except `formatSerial` |
| serial.dfy | SerialFormat | `formatSerial` |
| show.dfy | Show | pkg/cert/show.go |
| issue.dfy | Issue | the create-then-PEM-encode tail shared by cert.go, sign.go and generate.go |
| legacy.dfy | Legacy | pkg/cert/cert.go |
| sign.dfy | Sign | pkg/cert/sign.go |
| generate.dfy | Generate | pkg/cert/generate.go |

Representation choices:

- `x509.KeyUsage` is a bit mask; it is modelled as the set of its set bits.
  `|` is union, `!= 0` is non-emptiness, and `key & ku == key` is membership.
- `x509.ExtKeyUsage` keeps Go's integer codes 0 to 13. This lets the renderer
  drop codes it has no label for.
- A rendered entry, a Go `map[string]string` with one key, is
  `Show.Entry(field, value)`. Every entry has exactly one key by construction.

### Where the documentation and the code differ

The model follows the code in each of these cases:

- `formatSerial` writes lower-case hex digits (common.go:373).
- An empty extended key usage string gives an empty list, not a server
  authentication default (common.go:284-316).
- `NewCertInfo` ORs no baseline key usage into the result, and no
  certificate-signing bit for a CA (common.go:82-86). Only cert.go's parser and
  `NewCACertKey` do (cert.go:155, 54).
- The SAN scheme strip is `strings.TrimLeft` with the cut sets "ip:" and "dns:".
  It strips leading characters from those sets, not a prefix, so a host such as
  `dns:ns1.example.com` yields `1.example.com` (common.go:327-328;
  `Common.DnsStripEatsHostLetters`).
- `GetCertOrRequestInfo` sends every block type other than
  `CERTIFICATE REQUEST` down the certificate path (show.go:44-48).
- `NewCertKey` adds no common-name DNS default; only `NewSignedCertKey` and
  `NewCACertKey` do (generate.go:19-30).

## Model

| member | source | states |
|---|---|---|
| Common.FindName | pkg/cert/common.go:263-269 | the inner scan of the name table returns the value of the first name equal to the token up to ASCII case, or nothing |
| Common.LookupNameSound | pkg/cert/common.go:24-52 | a lookup fails iff no table name matches up to case; a success returns the value of a matching entry |
| Common.LookupNameIgnoresCase | pkg/cert/common.go:264 | tokens that lower-case alike find the same usage |
| Common.LookupNameUnique | pkg/cert/common.go:262-269 | in a table whose names are distinct up to case, a token matching an entry's name finds that entry wherever it stands, so the map's iteration order does not change the result |
| Common.KeyUsageNamesDistinct | pkg/cert/common.go:24-35 | no two key usage names lower-case alike, `certSign` and `keyCertSign` included |
| Common.ExtKeyUsageNamesDistinct | pkg/cert/common.go:37-52 | no two extended key usage names lower-case alike |
| Common.GetKeyUsage | pkg/cert/common.go:249-282 | the loop computes the union of the bits of the recognised trimmed tokens and the list of unrecognised ones, as `KeyUsageSpec` |
| Common.KeyUsageOutcome | pkg/cert/common.go:249-282 | succeeds iff every non-blank token names a usage; the result holds exactly the named bits, with no baseline; on failure every unrecognised token is reported |
| Common.AppendEKU | pkg/cert/common.go:164-178 | appends the purpose iff it is absent, otherwise returns the list unchanged |
| Common.GetExtKeyUsage | pkg/cert/common.go:284-317 | the loop builds the duplicate-free first-seen list of named purposes and the list of unrecognised tokens, as `ExtKeyUsageSpec` |
| Common.ExtKeyUsageOutcome | pkg/cert/common.go:284-317 | succeeds iff every non-blank token names a purpose; the result has no repeats and holds exactly the named purposes (empty for a blank list); on failure every unrecognised token is reported |
| Common.ExtKeyUsageNamesKnown | pkg/cert/common.go:37-52 | every purpose in a successful result is one of the fourteen library codes |
| Common.GetSubject | pkg/cert/common.go:186-247 | the loop folds the segments exactly as `SubjectSpec`, then fails iff the common name is empty |
| Common.SubjectFoldFields | pkg/cert/common.go:193-240 | C, ST, L and O hold the trimmed non-empty values of their segments in input order; the common name is the value of the last well-formed CN segment, or empty |
| Common.SubjectOutcome | pkg/cert/common.go:223-246 | succeeds iff the last well-formed CN segment exists and has a non-empty trimmed value, which is then the common name |
| Common.SubjectIgnoresUnknownSegment | pkg/cert/common.go:194-226 | a malformed segment, or one whose key is not C, ST, L, O or CN (such as S), changes nothing wherever it stands |
| Common.KeptValuesTrimmed | pkg/cert/common.go:196-222 | every kept attribute value is non-empty with no surrounding white space |
| Common.ContainString | pkg/cert/common.go:347-354 | true iff the string is in the list |
| Common.ContainsIP | pkg/cert/common.go:356-363 | true iff some address in the list has the same string form |
| Common.GetDNSNamesAndIPAddrs | pkg/cert/common.go:319-345 | the loop trims, strips and classifies each host and appends only absent ones, giving `SanSpec` |
| Common.SanPartition | pkg/cert/common.go:319-345 | each non-empty host lands in exactly one list (IPs when it parses); neither list repeats or holds an empty DNS name; nothing else gets in |
| Common.DnsStripEatsHostLetters | pkg/cert/common.go:327-328 | stripping "dns:" as a character set also eats a host's leading d, n or s |
| Common.NewCertInfo | pkg/cert/common.go:65-98 | returns the first error of serial draw, subject, key usage and extended key usage, in that order; on success IsCA and Duration are the inputs, the other fields are the parsers' results, and the descriptor is valid (serial below 2^128, CN non-empty, duplicate-free lists) |
| Common.ParseCerts | pkg/cert/common.go:100-122 | decodes consecutive PEM blocks until the input is used up, failing at the first undecodable block, and parses the concatenated bodies, as `ParseCertsSpec` |
| Common.ParseCertsOutcome | pkg/cert/common.go:100-122 | succeeds iff all blocks decode and the concatenation parses; every error starts with "Failed to parse certificate" |
| Common.ParseCert | pkg/cert/common.go:124-136 | an undecodable input gives "Failed to parse certificate"; it succeeds iff the first block decodes and the library parses its body, and then returns that certificate; a parse error e gives "Failed to parse certificate: " + e |
| Common.ParseKey | pkg/cert/common.go:138-162 | undecodable input gives "Failed to parse private key"; otherwise the result is the parse by PKCS #1 for `RSA PRIVATE KEY`, SEC 1 for `EC PRIVATE KEY`, PKCS #8 for any other label; it succeeds iff that parse does, and a parse error e gives "Failed to parse public key: " + e (the source's wording, on the private-key path) |
| SerialFormat.BigEndian | pkg/cert/common.go:370 | the minimal big-endian bytes: empty iff zero, never a leading zero byte |
| SerialFormat.BigEndianRoundTrip | pkg/cert/common.go:370 | the bytes denote the number |
| SerialFormat.HexEncode | pkg/cert/common.go:373 | writes the hex pairs into the buffer from the given offset and leaves the parts before and after them alone |
| SerialFormat.GroupInPlace | pkg/cert/common.go:374-376 | with the hex digits in the buffer's upper two thirds, the in-place loop leaves the grouped pairs and colons in the whole buffer; its writes never reach an unread digit |
| SerialFormat.FormatSerial | pkg/cert/common.go:365-378 | "0" for zero, otherwise the colon-joined lower-case pairs of the minimal bytes, as `SerialText` |
| SerialFormat.SerialRoundTrip | pkg/cert/common.go:365-378 | reading the text back gives the serial, so distinct serials print differently |
| SerialFormat.SerialTextShape | pkg/cert/common.go:370-377 | a k-byte serial gives 3k - 1 characters and never starts with "00" |
| Show.KeysDistinct | pkg/cert/show.go:65-175 | each field is written under a map key of its own ("Issuer", "Alternative Name", "Is CA", ...), so two entries have the same key iff they are the same field |
| Show.KeyUsageText | pkg/cert/show.go:147-154 | the loop collects the label of every bit present in the usage set, as `SetLabels` |
| Show.KeyUsageLabelsExact | pkg/cert/show.go:147-159 | a bit's label is listed iff the bit is set; every label comes from a set bit; the list is empty iff no bit is set |
| Show.FindEkuLabel | pkg/cert/show.go:164-169 | the inner scan returns the label of the purpose, or nothing for an unknown code |
| Show.EkuLabelKnown | pkg/cert/show.go:22-37 | a purpose has a label iff its code is 0 to 13, and then it is that code's label |
| Show.ExtKeyUsageText | pkg/cert/show.go:160-170 | the loop collects the labels of the known purposes in certificate order, as `EkuLabels` |
| Show.EkuLabelsOfKnown | pkg/cert/show.go:161-170 | the k-th label is that of the k-th known purpose; unknown purposes are dropped |
| Show.AltNameList | pkg/cert/show.go:118-126 | the alternative names are the DNS names followed by the IP strings |
| Show.AppendCertEntries | pkg/cert/show.go:106-175 | appends one certificate's entries, as `CertEntries` |
| Show.CertEntriesShape | pkg/cert/show.go:106-175 | entries follow the fixed field order, at most nine; each field appears iff its condition holds (Issuer iff issuer differs from subject, Subject iff non-empty, Alternative Name iff some name, Key Usage iff some bit, Extended Key Usage iff some purpose), always with that field's value |
| Show.CertEntriesAlways | pkg/cert/show.go:133-145 | Is CA, Serial Number, Effective Date and Expiration Date are listed for every certificate, with the flag, the formatted serial and the two dates |
| Show.GetCertInfo | pkg/cert/show.go:90-179 | propagates the parse error; otherwise lists each certificate's entries, each preceded by a separator when there are several, as `CertInfoSpec` |
| Show.ListingSeparators | pkg/cert/show.go:98-105 | with several certificates the separators read "Certificate Number 1", "2", ... in parse order; with one there is none |
| Show.SingleCertificate | pkg/cert/show.go:98-105 | a one-certificate input renders as that certificate's entries alone |
| Show.RequestEntriesShape | pkg/cert/show.go:65-87 | a request gives at most two entries: Subject iff non-empty, then Alternative Name iff some name |
| Show.GetCertRequestInfo | pkg/cert/show.go:51-88 | "Failed to parse certificate request" when nothing decodes or the request does not parse, "Not a Certificate Request" for another label, otherwise `RequestEntries` |
| Show.GetCertOrRequestInfo | pkg/cert/show.go:39-49 | "Failed to parse certificate or csr" when nothing decodes; otherwise dispatches on the label, as `CertOrRequestInfoSpec` |
| Show.Dispatch | pkg/cert/show.go:39-49 | a `CERTIFICATE REQUEST` block gives the request rendering and every other label the certificate rendering |
| Issue.Issued | pkg/cert/sign.go:38-53 | a PEM pair is returned iff creation and both encodings succeed; the first block holds the certificate, the second the PKCS #1 key; a creation error is returned as is |
| Issue.CreateAndEncode | pkg/cert/generate.go:32-47 | creates the certificate and encodes both blocks, stopping at the first error, as `Issued` |
| Legacy.GetSubject | pkg/cert/cert.go:124-150 | the loop overwrites the name's fields segment by segment, as `LegacySubjectSpec` |
| Legacy.LegacyAttrLast | pkg/cert/cert.go:127-143 | C, S, L and O each hold at most one value: the untrimmed value of the last segment with that exact key, or nothing |
| Legacy.LegacyCommonNameLast | pkg/cert/cert.go:139-140 | the common name is the untrimmed value of the last CN segment, or empty |
| Legacy.LegacySubjectOutcome | pkg/cert/cert.go:124-150 | fails iff the final common name is empty: no CN segment, or the last one has an empty value |
| Legacy.LegacySubjectIgnores | pkg/cert/cert.go:128-142 | a malformed segment, or one whose exact key is not C, S, L, O or CN (ST, or " CN"), changes nothing |
| Legacy.FindExact | pkg/cert/cert.go:161-167 | the inner scan finds the value of the name equal to the token, character for character |
| Legacy.ExactNameSound | pkg/cert/cert.go:161-167 | a lookup fails iff no table name equals the token; a success returns a matching entry's value |
| Legacy.CertSignSpelling | pkg/cert/cert.go:17-27 | `certSign` names the certificate-signing bit and `keyCertSign` names nothing |
| Legacy.GetKeyUsage | pkg/cert/cert.go:152-177 | the loop ORs into the baseline and returns at the first unknown token, as `LegacyKeyUsageSpec` |
| Legacy.UsageFoldSticky | pkg/cert/cert.go:169-171 | once a token is rejected the later tokens do not change the error |
| Legacy.LegacyKeyUsageOutcome | pkg/cert/cert.go:152-177 | succeeds iff every token is empty or an exact name; the result is DigitalSignature and KeyEncipherment plus exactly the named bits; the error names the first rejected token only |
| Legacy.GetAltNames | pkg/cert/cert.go:96-116 | the loop classifies the untrimmed lower-cased tokens and appends only absent ones, as `AltNamesSpec` |
| Legacy.AltNamesPartition | pkg/cert/cert.go:96-116 | each non-empty token lands verbatim in exactly one list; neither list repeats; nothing else gets in |
| Legacy.NewCACertKey | pkg/cert/cert.go:34-94 | checks key generation, serial, subject and usage in order, builds the CA template with its conditional SAN fields and issues it to itself, as `NewCACertKeySpec` |
| Legacy.CARequestOutcome | pkg/cert/cert.go:34-76 | errors come in source order: key, serial, subject, then key usage, each returned as is; on success the template is CA with BasicConstraintsValid, has only server authentication, holds exactly the parsed key usage (baseline included) plus CertSign, is valid from now for the duration, and has the SAN list's DNS names, or the lower-cased CN when the list names no host, so at least one DNS name and none empty |
| Legacy.NewCACertKeyOutcome | pkg/cert/cert.go:78-93 | a PEM pair is returned iff preparation succeeds and the library creates (self-parent, new key's public half, signed by the new key) and encodes the certificate |
| Sign.NewSignedCertKey | pkg/cert/sign.go:14-54 | key generation error first; otherwise builds the template, defaulting the DNS names, and issues it under the CA, as `NewSignedCertKeySpec` |
| Sign.SignedTemplateFields | pkg/cert/sign.go:20-36 | serial, subject, usages and IPs copied; valid from now for the duration; BasicConstraintsValid set; IsCA is the caller's flag; DNS names kept or the lower-cased CN; for a valid descriptor at least one DNS name, none empty |
| Sign.NewSignedCertKeyOutcome | pkg/cert/sign.go:14-54 | a PEM pair is returned iff the library creates the certificate under the CA certificate for the new key's public half, signed by the CA key, and both blocks encode; the key block holds the new key |
| Generate.NewCertKey | pkg/cert/generate.go:12-48 | key generation error first; otherwise copies the descriptor into the template and issues it to itself, as `NewCertKeySpec` |
| Generate.SelfTemplateFields | pkg/cert/generate.go:18-30 | every descriptor field is copied unchanged (no DNS default); valid from now for the duration; BasicConstraintsValid and IsCA are the descriptor's flag |
| Generate.TemplatesAgree | pkg/cert/generate.go:19-30 | the self-issued and CA-signed templates coincide iff the descriptor and the caller both say CA and the descriptor has DNS names |
| Generate.NewCertKeyOutcome | pkg/cert/generate.go:12-48 | a PEM pair is returned iff the library creates the certificate with the template as its own parent, signed by the new key, and both blocks encode; the certificate block comes first |

## Left out

- Library code is not modelled; it is parameters of the model. This covers RSA
  key generation, `x509.CreateCertificate`, DER parsing, PEM encoding and
  decoding, `x509.MarshalPKCS1PrivateKey`, `net.ParseIP` and `net.IP.String`.
  Nothing is assumed about them except that `pem.Decode` returns a strictly
  shorter rest.
- The `bits` and `rsaKeySize` arguments only size the key. The model takes the
  key generation outcome instead.
- `getSerialNumber` (common.go:180-183, cert.go:118-121) is a random draw below
  2^128. The model takes its outcome as an argument and requires that bound.
- SerialFormat.FormatSerial: serial numbers are naturals. A Go `*big.Int`
  serial can be negative. For such a serial, `formatSerial` prints the hex of
  its magnitude with no sign, because `serial.Bytes()` drops the sign
  (common.go:370). Negative serials are not modelled.
- Common.GetSubject: nil and empty slices are not distinguished. Both are the
  empty sequence. The source assigns each of C/ST/L/O only when something was
  kept (common.go:229-240), so the core never builds a non-nil empty slice on
  these paths, and the empty sequence stands for nil.
- `time.Now` is an argument. `time.Time.Add` overflow and the `UTC()`
  conversion are not modelled. The certificate dates the renderer prints are
  opaque strings.
- `pkix.Name.String()` is not modelled. The renderer takes subject and issuer
  as opaque strings.
- The `fmt.Println` warnings in common.go's `getSubject` (common.go:201-219)
  are output only.
- Show.KeyUsageText: lists the labels in bit order. The source ranges over a Go
  map, whose order is unspecified. `Show.KeyUsageLabelsExact` therefore states
  only which labels appear.
- Common.FindName: scans the name table in a fixed order. The source ranges
  over a Go map, but the result does not depend on order.
  `Common.KeyUsageNamesDistinct` and `Common.ExtKeyUsageNamesDistinct` prove
  that no two names lower-case alike. `Common.LookupNameUnique` then gives the
  matching entry wherever it stands.
- `ToLower` covers ASCII letters only. `TrimSpace` uses the Unicode White_Space
  set.
- pkg/cert/fetch.go (a network TLS dial), `cmd/` and `main.go` (flags, files,
  table output) are not part of this model.
- cert.go's `containString` and `containsIP` are the same code as common.go's,
  so `Legacy.GetAltNames` uses `Common.ContainString` and `Common.ContainsIP`.
