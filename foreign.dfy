/** Values shared by every module: Go's ok/err idioms and the library calls
    that the model treats as given (regular expressions, SHA-1, the net
    package, base64 and x509). A library call is a total function carried in
    the record `Lib`, so every property proved below holds for every possible
    behaviour of those libraries. */
module Foreign {

  datatype Option<+T> = None | Some(value: T)

  /** Go `(value, error)` pair: either a value or an error text. */
  datatype Result<+T> = Ok(value: T) | Err(error: string)

  /** The outcome of Go code that can panic (an index or slice out of range). */
  datatype Outcome<+T> = Done(value: T) | Panicked

  type byte = b: int | 0 <= b < 256

  /** `net.IP`: the bytes of an address; `ParseIP` returns the empty (nil) IP on failure. */
  type IP = seq<byte>

  /** `net.IPNet`: a network address and its mask. */
  datatype IPNet = IPNet(ip: IP, mask: seq<byte>)

  /** The fields of `*x509.Certificate` that the handler reads. */
  datatype Certificate = Certificate(
    issuerOrganization: seq<string>,   // cert.Issuer.Organization
    subjectCommonName: string,         // cert.Subject.CommonName
    subjectRdn: string,                // cert.Subject.ToRDNSequence().String()
    issuerRdn: string)                 // cert.Issuer.ToRDNSequence().String()

  /** The behaviour of the library calls the source makes. Go strings are
      byte strings; the model writes them as `string`, one char per byte. */
  datatype Lib = Lib(
    regexpCompiles: string -> bool,          // regexp.Compile(pat) returns no error
    regexpError: string -> string,           // err.Error() of a failing regexp.Compile(pat)
    regexpMatch: (string, string) -> bool,   // compiled pat .MatchString(s)
    sha1: string -> seq<byte>,               // h.Sum(nil) after exactly these bytes were written
    parseCidr: string -> Option<IPNet>,      // net.ParseCIDR; None for an error
    parseIp: string -> IP,                   // net.ParseIP
    netContains: (IPNet, IP) -> bool,        // IPNet.Contains
    base64Decode: string -> Option<seq<byte>>,           // base64.StdEncoding.DecodeString
    parseCertificate: seq<byte> -> Option<Certificate>)  // x509.ParseCertificate
}
