/** The helpers of object `Utils`: the strict encrypt/plaintext token parser
    and the file fingerprint. */
module Utils {
  import opened Common
  import opened LocalFs
  import opened Streams
  import Hex

  /** A SHA-256 digest: 32 bytes. */
  type Digest = d: seq<byte> | |d| == 32 witness seq(32, _ => 0 as byte)

  /** SHA-256 itself (FIPS 180-4) is not modelled: the model is given it as a
      function from the whole message to its digest. */
  type Sha256 = seq<byte> -> Digest

  /** The batch script's `encrypt` / `plaintext` token. */
  function ParseEncryptField(s: string): (r: Result<bool>)
    ensures r == Success(true) <==> s == "encrypt"
    ensures r == Success(false) <==> s == "plaintext"
    ensures r.Failure? <==> s != "encrypt" && s != "plaintext"
    ensures r.Failure? ==> r.error.IllegalArgument?
  {
    match s
    case "encrypt" => Success(true)
    case "plaintext" => Success(false)
    case _ => Failure(IllegalArgument("encrypt parameter '" + s + "' unparseable"))
  }

  /** The fingerprint text of a file's contents. */
  function FileHash(sha: Sha256, contents: seq<byte>): string
  {
    Hex.DigestHex(sha(contents))
  }

  /** `computeFileHash`: reads the file through a digesting stream in chunks
      of at most 1000 bytes until the stream reports its end, then prints
      the digest in base 16. However the stream splits its bytes, the digest
      covers the whole file. */
  method ComputeFileHash(sha: Sha256, fs: FileSystem, file: Path) returns (r: Result<string>)
    ensures file !in fs.files ==> r == Failure(FileNotFound(file))
    ensures file in fs.files ==> r == Success(FileHash(sha, fs.files[file]))
  {
    if file !in fs.files {
      return Failure(FileNotFound(file));
    }
    var dis := new InputStream(fs.files[file]);
    var digested: seq<byte> := [];  // what the DigestInputStream has fed to the MessageDigest
    while true
      invariant dis.Valid() && digested == dis.data[..dis.pos]
      decreases |dis.data| - dis.pos
    {
      var n, chunk := dis.Read(1000);
      if n == -1 {
        break;
      }
      digested := digested + chunk;
    }
    dis.Close();
    assert digested == fs.files[file];
    r := Success(Hex.DigestHex(sha(digested)));
  }

  /** Comparing two fingerprint texts compares the digests themselves. */
  lemma FileHashMatchesDigest(sha: Sha256, a: seq<byte>, b: seq<byte>)
    ensures FileHash(sha, a) == FileHash(sha, b) <==> sha(a) == sha(b)
  {
    Hex.DigestHexInjective(sha(a), sha(b));
  }

  /** The fingerprint text is 1 to 64 lower-case base-16 digits. */
  lemma FileHashShape(sha: Sha256, contents: seq<byte>)
    ensures 1 <= |FileHash(sha, contents)| <= 64
    ensures forall i :: 0 <= i < |FileHash(sha, contents)| ==> Hex.IsLowerHexDigit(FileHash(sha, contents)[i])
  {
    Hex.DigestHexShape(sha(contents));
  }
}
