/** The store crate's error enum, as far as the modelled code raises it. */
module StoreErrors {
  import opened Bytes

  datatype EnvelopeReason =
    | ShorterThanHeader
    | LegacyFormat
    | UnsupportedVersion
    | SentinelAlgoId
    | NonceLenOutOfRange
    | TruncatedNonce
    | NonceLenMismatch
    | WrappedShorterThanNonce
    | UnwrappedNot32Bytes

  datatype StoreError =
    | Decrypt
    | Encrypt
    | Envelope(reason: EnvelopeReason)
    | UnknownAlgorithm(algoId: byte)
    | NoActiveDek
    | NoSuchDekVersion(version: u32)
    | AlreadyActiveDek
    | CannotShredActiveDek
    | UnsupportedController
    | Storage
    /** Not an enum case: the panic of `max + 1` on `u32::MAX` in the
        in-memory provider, which leaves the map as it was. */
    | VersionOverflowPanic
}
