/** Types shared by the credential backends (`src/backend/mod.rs`) and the contract
    that every backend is held to. */
module Backend {
  import opened Bytes
  import opened Ed25519

  datatype BackendError = InvalidInput | CredentialNotFound | Internal

  datatype Result<+T> = Ok(value: T) | Err(error: BackendError)

  /** An opaque, never empty identifier. */
  datatype Handle = Handle(bytes: Buffer)

  function NewHandle(bytes: Buffer): Result<Handle> {
    if bytes == [] then Err(InvalidInput) else Ok(Handle(bytes))
  }

  datatype Created = Created(handle: Handle, publicKey: Buffer)

  /** The live credentials of a backend, with the public key each was created with. */
  type Live = map<Handle, Buffer>

  /** `create_credential`: an empty relying-party id is refused; a success adds exactly one
      credential, under a fresh 32-byte handle; a failure adds nothing. */
  predicate CreateContract(live: Live, rpId: string, r: Result<Created>, live': Live) {
    match r
    case Ok(c) =>
      rpId != "" && c.handle !in live && |c.handle.bytes| == 32 && |c.publicKey| == 32
      && live' == live[c.handle := c.publicKey]
    case Err(e) => live' == live && (e == InvalidInput <==> rpId == "")
  }

  /** `sign`: an unknown handle is refused; a success is a signature over exactly this
      message that verifies under the key the handle was created with. */
  predicate SignContract(s: Suite, live: Live, h: Handle, message: Buffer, r: Result<Buffer>) {
    match r
    case Ok(sig) => h in live && Verify(s, live[h], message, sig)
    case Err(e) => e == CredentialNotFound <==> h !in live
  }

  /** `delete_credential` */
  predicate DeleteContract(live: Live, h: Handle, r: Result<()>, live': Live) {
    && live' == live - {h}
    && r == if h in live then Ok(()) else Err(CredentialNotFound)
  }
}
