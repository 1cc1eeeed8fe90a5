/** Bytes, options, results and the error enum shared by every component. */
module Basics {

  type byte = x: int | 0 <= x < 256
  type Bytes = seq<byte>

  datatype Option<+T> = None | Some(value: T)

  /** The error variants of the crate that the modelled code can produce. */
  datatype Error =
    | Authentication
    | KeyDerivation
    | Crypto
    | VaultFormat
    | UnsupportedVersion
    | InvalidKdfParameters
    | InvalidEncoding
    | InvalidEntry
    | Storage
    | VaultAlreadyExists
    | VaultNotFound
    | PasswordTooShort
    | PasswordMismatch
    | Clipboard

  datatype Result<+T> = Ok(value: T) | Err(error: Error) {
    predicate IsFailure() {
      Err?
    }

    function PropagateFailure<U>(): Result<U>
      requires Err?
    {
      Err(error)
    }

    function Extract(): T
      requires Ok?
    {
      value
    }
  }

  /** `Ok(())`. */
  datatype Unit = Unit

  /** The result of asking the operating system for random bytes. */
  type Draw = Option<Bytes>

  predicate DrawOf(d: Draw, n: nat) {
    d.Some? ==> |d.value| == n
  }

  /** Printable ASCII other than the quote and the backslash. */
  predicate Plain(c: char) {
    c != '"' && c != '\\' && ' ' <= c < 128 as char
  }

  /** The index of the first occurrence of `x`. */
  function IndexOf<T(==)>(s: seq<T>, x: T): (i: nat)
    requires x in s
    ensures i < |s| && s[i] == x
    ensures forall j :: 0 <= j < i ==> s[j] != x
  {
    if s[0] == x then 0 else 1 + IndexOf(s[1..], x)
  }
}
