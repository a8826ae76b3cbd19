/** The parts of `AWSEncryptionSDK` the wrapper relies on. The envelope
    cipher itself (AES-256-GCM with key commitment) is not modelled: the
    model is given it as a pair of functions under a raw key, and results
    that depend on decryption undoing encryption take that as a premise. */
module EncryptionSdk {
  import opened Common
  import opened LocalFs

  /** An encryption context: the name-value pairs a message carries in the
      clear and authenticates. */
  type Context = map<string, string>

  /** The context `encryptToStream` attaches to every message it writes. */
  const ContextName := "Example"
  const ContextValue := "FileStreaming"
  const FileContext: Context := map[ContextName := ContextValue]

  /** What the SDK's decrypting stream yields: the message's context and
      its plaintext. */
  datatype Decrypted = Decrypted(context: Context, plaintext: seq<byte>)

  /** `encrypt(key, context, plaintext)` is the encrypted message;
      `decrypt(key, message)` is its context and plaintext, or `None` when
      the SDK refuses the message (another key, a corrupt or truncated
      message, one without key commitment). */
  datatype Cipher = Cipher(
    encrypt: (seq<byte>, Context, seq<byte>) -> seq<byte>,
    decrypt: (seq<byte>, seq<byte>) -> Option<Decrypted>)

  /** Decryption under the key used to encrypt gives the context and the
      plaintext back. */
  ghost predicate RoundTrips(c: Cipher)
  {
    forall key, context, plaintext ::
      c.decrypt(key, c.encrypt(key, context, plaintext)) == Some(Decrypted(context, plaintext))
  }

  /** The check `decryptFromStream` makes on a decrypted message's context. */
  predicate ExpectedContext(context: Context)
  {
    ContextName in context && context[ContextName] == ContextValue
  }

  /** `loadKey`: the raw bytes of the key file. */
  function LoadKey(fs: FileSystem, keyFile: Path): (r: Result<seq<byte>>)
    ensures r.Success? <==> keyFile in fs.files
    ensures r.Success? ==> r.value == fs.files[keyFile]
    ensures r.Failure? ==> r.error == NoSuchFile(keyFile)
  {
    if keyFile in fs.files then Success(fs.files[keyFile]) else Failure(NoSuchFile(keyFile))
  }

  /** The bytes `encryptToFile` reads from `inFile`. The input is opened
      first, but nothing is read from it until the output has been opened,
      and opening the output truncates it: when both are the same file the
      reader finds it empty. */
  function PlaintextRead(fs: FileSystem, inFile: Path, outFile: Path): seq<byte>
    requires inFile in fs.files
  {
    if inFile == outFile then [] else fs.files[inFile]
  }

  /** `encryptToFile`: `outFile` is created or truncated and receives the
      encryption of what is read from `inFile`. */
  function EncryptToFile(c: Cipher, fs: FileSystem, key: seq<byte>, inFile: Path, outFile: Path): (r: Result<FileSystem>)
    ensures r.Success? <==> inFile in fs.files && fs.CanCreate(outFile)
    ensures r.Failure? ==> r.error == NoSuchFile(if inFile in fs.files then outFile else inFile)
    ensures r.Success? ==> r.value.dirs == fs.dirs && outFile in r.value.files &&
                           r.value.files - {outFile} == fs.files - {outFile}
  {
    if inFile !in fs.files then Failure(NoSuchFile(inFile))
    else if !fs.CanCreate(outFile) then Failure(NoSuchFile(outFile))
    else Success(fs.Write(outFile, c.encrypt(key, FileContext, PlaintextRead(fs, inFile, outFile))))
  }

  /** `decryptFromStream`: the plaintext it writes, the SDK's refusal of a
      message it cannot decrypt, or the failed check of the context. */
  function Decrypt(c: Cipher, key: seq<byte>, message: seq<byte>): (r: Result<seq<byte>>)
    ensures r.Success? <==> c.decrypt(key, message).Some? && ExpectedContext(c.decrypt(key, message).value.context)
    ensures r.Success? ==> r.value == c.decrypt(key, message).value.plaintext
    ensures c.decrypt(key, message).None? ==> r == Failure(AwsCrypto)
    ensures c.decrypt(key, message).Some? && !ExpectedContext(c.decrypt(key, message).value.context) ==>
              r == Failure(IllegalState("Bad encryption context"))
  {
    match c.decrypt(key, message)
    case None => Failure(AwsCrypto)
    case Some(d) =>
      if ExpectedContext(d.context) then Success(d.plaintext)
      else Failure(IllegalState("Bad encryption context"))
  }

  /** A message `encryptToStream` wrote decrypts to its plaintext under the
      same key. */
  lemma DecryptsOwnMessages(c: Cipher, key: seq<byte>, plaintext: seq<byte>)
    requires RoundTrips(c)
    ensures Decrypt(c, key, c.encrypt(key, FileContext, plaintext)) == Success(plaintext)
  {
    assert c.decrypt(key, c.encrypt(key, FileContext, plaintext)) == Some(Decrypted(FileContext, plaintext));
  }

  /** A message encrypted under another context is refused by the check
      even though the SDK decrypts it. */
  lemma ForeignContextRejected(c: Cipher, key: seq<byte>, context: Context, plaintext: seq<byte>)
    requires RoundTrips(c)
    requires !ExpectedContext(context)
    ensures Decrypt(c, key, c.encrypt(key, context, plaintext)) == Failure(IllegalState("Bad encryption context"))
  {
    assert c.decrypt(key, c.encrypt(key, context, plaintext)) == Some(Decrypted(context, plaintext));
  }

  /** With distinct files the staged ciphertext decrypts to the input file's
      bytes; with one file it decrypts to nothing. */
  lemma EncryptToFileDecrypts(c: Cipher, fs: FileSystem, key: seq<byte>, inFile: Path, outFile: Path)
    requires RoundTrips(c)
    requires EncryptToFile(c, fs, key, inFile, outFile).Success?
    ensures var staged := EncryptToFile(c, fs, key, inFile, outFile).value.files[outFile];
      Decrypt(c, key, staged) == Success(if inFile == outFile then [] else fs.files[inFile])
  {
    DecryptsOwnMessages(c, key, PlaintextRead(fs, inFile, outFile));
  }
}
