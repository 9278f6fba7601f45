/**
 * The password credential of helpers/auth.py: `hash_password` writes
 * `pbkdf2_sha256$<iterations>$<base64 salt>$<base64 key>` and
 * `verify_password` splits such a string, checks the algorithm tag, decodes
 * the fields, derives the key again and compares.
 *
 * PBKDF2-HMAC-SHA256 is a parameter `kdf`: any deterministic function of
 * (password bytes, salt, iteration count). The random salt is a parameter too.
 */
module Credential {
  import opened Wrappers
  import opened Bytes
  import opened Text
  import Base64

  const Algorithm: string := "pbkdf2_sha256"
  const Iterations: nat := 600000
  const SaltLength: nat := 16
  const Separator: char := '$'
  /** C's INT_MAX: `hashlib.pbkdf2_hmac` refuses iteration counts above it, and below 1. */
  const MaxIterations: int := 0x7FFF_FFFF

  /** `hashlib.pbkdf2_hmac("sha256", password, salt, iterations)`, for iterations in 1..MaxIterations. */
  type Kdf = (seq<byte>, seq<byte>, int) -> seq<byte>

  /** The exceptions `verify_password` raises. */
  datatype VerifyError =
    | NotEnoughFields                         // fewer than four fields to unpack (ValueError)
    | UnsupportedAlgorithm                    // "Unsupported password hashing algorithm." (ValueError)
    | InvalidIterations                       // int() rejects the iteration field (ValueError)
    | InvalidSalt(cause: Base64.DecodeError)  // b64decode rejects the salt field
    | InvalidKey(cause: Base64.DecodeError)   // b64decode rejects the key field
    | IterationsOutOfRange                    // pbkdf2_hmac: below 1 (ValueError) or above INT_MAX (OverflowError)

  /**
   * `base64.b64encode(b).decode("ascii").strip()`: the strip has nothing to
   * remove, and the field never holds the separator.
   */
  function EncodeField(b: seq<byte>): (r: string)
    ensures r == Base64.Encode(b)
    ensures Separator !in r
  {
    EncodingUnpadded(b);
    Base64.NotInEncoding(b, Separator);
    Strip(Base64.Encode(b))
  }

  /** The four fields of a credential string, in order. */
  function Fields(iterations: nat, salt: seq<byte>, key: seq<byte>): seq<string>
  {
    [Algorithm, DecimalString(iterations), EncodeField(salt), EncodeField(key)]
  }

  /** The credential string for the given iteration count, salt and derived key: the `$`-join of its fields. */
  function Format(iterations: nat, salt: seq<byte>, key: seq<byte>): (r: string)
    ensures r == Join(Fields(iterations, salt, key), Separator)
  {
    JoinFour(Fields(iterations, salt, key), Separator);
    Algorithm + [Separator] + DecimalString(iterations) + [Separator]
      + EncodeField(salt) + [Separator] + EncodeField(key)
  }

  /**
   * `hash_password(password)`, with the 16 random salt bytes passed in. The
   * credential has exactly three separators and four fields: the tag
   * `pbkdf2_sha256`, the decimal `600000`, the encoding of the salt and the
   * encoding of the key derived from the password with that salt.
   */
  function HashPassword(kdf: Kdf, password: string, salt: seq<byte>): (r: string)
    requires |salt| == SaltLength
    ensures Split(r, Separator, 3)
      == ["pbkdf2_sha256", "600000", Base64.Encode(salt), Base64.Encode(kdf(Utf8Encode(password), salt, 600000))]
    ensures Count(r, Separator) == 3
  {
    var key := kdf(Utf8Encode(password), salt, Iterations);
    FormatFields(Iterations, salt, key);
    SixHundredThousand();
    assert Fields(Iterations, salt, key) == ["pbkdf2_sha256", "600000", Base64.Encode(salt), Base64.Encode(key)];
    Format(Iterations, salt, key)
  }

  /**
   * `verify_password(password, hashed_password)`: `Ok(match)` or the exception
   * raised. An answer is only ever given for a credential with at least three
   * separators, the `pbkdf2_sha256` tag, an iteration count `pbkdf2_hmac`
   * accepts and two fields that decode.
   */
  function VerifyPassword(kdf: Kdf, password: string, hashed: string): (r: Result<bool, VerifyError>)
    ensures r.Ok? ==> Count(hashed, Separator) >= 3
    ensures r.Ok? ==>
      var fields := Split(hashed, Separator, 3);
      && |fields| == 4 && fields[0] == Algorithm
      && ParseInt(fields[1]).Some? && 1 <= ParseInt(fields[1]).value <= MaxIterations
      && Base64.Decode(fields[2]).Ok? && Base64.Decode(fields[3]).Ok?
  {
    SplitLength(hashed, Separator, 3);
    var fields := Split(hashed, Separator, 3);
    if |fields| != 4 then Err(NotEnoughFields)
    else if fields[0] != Algorithm then Err(UnsupportedAlgorithm)
    else
      match ParseInt(fields[1])
      case None => Err(InvalidIterations)
      case Some(iterations) =>
        match Base64.Decode(fields[2])
        case Err(e) => Err(InvalidSalt(e))
        case Ok(salt) =>
          match Base64.Decode(fields[3])
          case Err(e) => Err(InvalidKey(e))
          case Ok(key) =>
            if iterations < 1 || iterations > MaxIterations then Err(IterationsOutOfRange)
            else Ok(kdf(Utf8Encode(password), salt, iterations) == key)
  }

  // ---- the encoded fields ----

  /** `strip()` finds nothing to remove around a base64 encoding. */
  lemma EncodingUnpadded(b: seq<byte>)
    ensures Strip(Base64.Encode(b)) == Base64.Encode(b)
  {
    var s := Base64.Encode(b);
    forall k | 0 <= k < |s|
      ensures !IsSpace(s[k])
    {
      assert Base64.InAlphabet(s[k]) || s[k] == '=';
    }
    StripUnpadded(s);
  }

  /** The 16-byte salt is written as 24 base64 characters. */
  lemma EncodedSaltLength(salt: seq<byte>)
    requires |salt| == SaltLength
    ensures |EncodeField(salt)| == 24
  {
  }

  /** The decimal iteration count holds no separator. */
  lemma DecimalFree(n: nat)
    ensures Count(DecimalString(n), Separator) == 0
  {
    CountPositive(DecimalString(n), Separator);
  }

  /** The algorithm tag holds no separator. */
  lemma TagFree()
    ensures Count(Algorithm, Separator) == 0
  {
    CountPositive(Algorithm, Separator);
  }

  /** An encoded field holds no separator. */
  lemma EncodedFree(b: seq<byte>)
    ensures Count(EncodeField(b), Separator) == 0
  {
    CountPositive(EncodeField(b), Separator);
  }

  lemma FieldsFree(iterations: nat, salt: seq<byte>, key: seq<byte>)
    ensures FreeButLast(Fields(iterations, salt, key), Separator)
    ensures Count(EncodeField(key), Separator) == 0
  {
    var fields := Fields(iterations, salt, key);
    var a, d, s, k := Algorithm, DecimalString(iterations), EncodeField(salt), EncodeField(key);
    TagFree();
    DecimalFree(iterations);
    EncodedFree(salt);
    EncodedFree(key);
    assert FreeButLast([s, k], Separator);
    assert FreeButLast([d, s, k], Separator) by { assert [d, s, k][1..] == [s, k]; }
    assert fields[1..] == [d, s, k];
  }

  /**
   * The credential string has exactly three separators, and splitting it with
   * at most three cuts gives back the four fields it was written from.
   */
  lemma FormatFields(iterations: nat, salt: seq<byte>, key: seq<byte>)
    ensures Split(Format(iterations, salt, key), Separator, 3) == Fields(iterations, salt, key)
    ensures Count(Format(iterations, salt, key), Separator) == 3
  {
    var fields := Fields(iterations, salt, key);
    var s := Format(iterations, salt, key);
    FieldsFree(iterations, salt, key);
    SplitJoin(fields, Separator);
    SplitLength(s, Separator, 3);
    SplitLastCount(s, Separator, 3);
  }

  lemma SixHundredThousand()
    ensures DecimalString(Iterations) == "600000"
  {
    assert DecimalString(6) == "6";
    assert DecimalString(60) == "60";
    assert DecimalString(600) == "600";
    assert DecimalString(6000) == "6000";
    assert DecimalString(60000) == "60000";
  }

  // ---- verification ----

  /** An iteration count `pbkdf2_hmac` accepts has at most ten digits, far below `int`'s limit. */
  lemma IterationDigits(n: nat)
    requires n <= MaxIterations
    ensures |DecimalString(n)| <= 10
  {
    assert Pow10(10) == 10_000_000_000;
    DecimalLength(n, 10);
  }

  /**
   * Against a well-formed credential, `verify_password` answers, and answers
   * true exactly when the key derived from the password with the stored salt
   * and iteration count equals the stored key.
   */
  lemma VerifyFormatted(kdf: Kdf, password: string, iterations: nat, salt: seq<byte>, key: seq<byte>)
    requires 1 <= iterations <= MaxIterations
    ensures VerifyPassword(kdf, password, Format(iterations, salt, key))
      == Ok(kdf(Utf8Encode(password), salt, iterations) == key)
  {
    FormatFields(iterations, salt, key);
    VerifyFields(kdf, password, Format(iterations, salt, key), iterations, salt, key);
  }

  /** `VerifyFormatted`, for any credential string that splits into the expected fields. */
  lemma VerifyFields(kdf: Kdf, password: string, hashed: string, iterations: nat, salt: seq<byte>, key: seq<byte>)
    requires 1 <= iterations <= MaxIterations
    requires Split(hashed, Separator, 3) == Fields(iterations, salt, key)
    ensures VerifyPassword(kdf, password, hashed) == Ok(kdf(Utf8Encode(password), salt, iterations) == key)
  {
    ParseIterations(iterations);
    DecodeField(salt);
    DecodeField(key);
    VerifyAccepts(kdf, password, hashed, DecimalString(iterations), EncodeField(salt), EncodeField(key), iterations, salt, key);
  }

  /** Once every field reads back, `verify_password` compares the derived key with the stored one. */
  lemma VerifyAccepts(kdf: Kdf, password: string, hashed: string, count: string, saltField: string, keyField: string,
                      iterations: int, salt: seq<byte>, key: seq<byte>)
    requires Split(hashed, Separator, 3) == [Algorithm, count, saltField, keyField]
    requires ParseInt(count) == Some(iterations) && 1 <= iterations <= MaxIterations
    requires Base64.Decode(saltField) == Ok(salt) && Base64.Decode(keyField) == Ok(key)
    ensures VerifyPassword(kdf, password, hashed) == Ok(kdf(Utf8Encode(password), salt, iterations) == key)
  {
  }

  /** A base64 field decodes to the bytes written into it. */
  lemma DecodeField(b: seq<byte>)
    ensures Base64.Decode(EncodeField(b)) == Ok(b)
  {
    Base64.DecodeEncode(b);
  }

  /** The iteration field of an accepted count reads back as that count. */
  lemma ParseIterations(iterations: nat)
    requires iterations <= MaxIterations
    ensures ParseInt(DecimalString(iterations)) == Some(iterations)
  {
    IterationDigits(iterations);
    ParseDecimal(iterations);
  }

  /**
   * `verify_password(p, hash_password(p))` is true; for another password `q`
   * it is true exactly when `q` derives the same key with that salt.
   */
  lemma VerifyHashPassword(kdf: Kdf, password: string, other: string, salt: seq<byte>)
    requires |salt| == SaltLength
    ensures VerifyPassword(kdf, password, HashPassword(kdf, password, salt)) == Ok(true)
    ensures VerifyPassword(kdf, other, HashPassword(kdf, password, salt))
      == Ok(kdf(Utf8Encode(other), salt, Iterations) == kdf(Utf8Encode(password), salt, Iterations))
  {
    var key := kdf(Utf8Encode(password), salt, Iterations);
    VerifyFormatted(kdf, password, Iterations, salt, key);
    VerifyFormatted(kdf, other, Iterations, salt, key);
  }

  /**
   * A password other than the one hashed verifies only through a collision of
   * the key derivation: two different UTF-8 inputs that derive the same key.
   */
  lemma OtherPasswordCollides(kdf: Kdf, password: string, other: string, salt: seq<byte>)
    requires |salt| == SaltLength && other != password
    ensures VerifyPassword(kdf, other, HashPassword(kdf, password, salt)) == Ok(true) ==>
      && Utf8Encode(other) != Utf8Encode(password)
      && kdf(Utf8Encode(other), salt, Iterations) == kdf(Utf8Encode(password), salt, Iterations)
  {
    VerifyHashPassword(kdf, password, other, salt);
    Utf8Injective(other, password);
  }

  /** Two different salts give two different credential strings for the same password. */
  lemma DistinctSalts(kdf: Kdf, password: string, salt1: seq<byte>, salt2: seq<byte>)
    requires |salt1| == SaltLength && |salt2| == SaltLength
    requires salt1 != salt2
    ensures HashPassword(kdf, password, salt1) != HashPassword(kdf, password, salt2)
  {
    Base64.DecodeEncode(salt1);
    Base64.DecodeEncode(salt2);
  }

  /** With fewer than three separators the unpacking fails, and only then. */
  lemma TooFewFields(kdf: Kdf, password: string, hashed: string)
    ensures VerifyPassword(kdf, password, hashed) == Err(NotEnoughFields)
      <==> Count(hashed, Separator) < 3
  {
    SplitLength(hashed, Separator, 3);
  }

  /**
   * A credential with enough separators whose text before the first one is not
   * `pbkdf2_sha256` raises the unsupported-algorithm error, and only such a
   * credential does; so `verify_password` never answers for a foreign tag.
   */
  lemma UnknownAlgorithm(kdf: Kdf, password: string, hashed: string)
    ensures VerifyPassword(kdf, password, hashed) == Err(UnsupportedAlgorithm)
      <==> Count(hashed, Separator) >= 3 && hashed[..IndexOf(hashed, Separator)] != Algorithm
    ensures VerifyPassword(kdf, password, hashed).Ok? ==> hashed[..IndexOf(hashed, Separator)] == Algorithm
  {
    SplitLength(hashed, Separator, 3);
    if Count(hashed, Separator) >= 3 && IndexOf(hashed, Separator) == |hashed| {
      NotFound(hashed, Separator);
    }
  }

  /**
   * With three or more separators there are four fields: the first three are
   * free of separators and the last absorbs the rest of the string, extra
   * separators included.
   */
  lemma LastFieldAbsorbsRest(hashed: string)
    requires Count(hashed, Separator) >= 3
    ensures var fields := Split(hashed, Separator, 3);
      && |fields| == 4
      && hashed == fields[0] + [Separator] + fields[1] + [Separator] + fields[2] + [Separator] + fields[3]
      && Separator !in fields[0] && Separator !in fields[1] && Separator !in fields[2]
      && Count(fields[3], Separator) == Count(hashed, Separator) - 3
  {
    var fields := Split(hashed, Separator, 3);
    SplitLength(hashed, Separator, 3);
    SplitPartsFree(hashed, Separator, 3);
    FreeButLastAt(fields, Separator);
    CountPositive(fields[0], Separator);
    CountPositive(fields[1], Separator);
    CountPositive(fields[2], Separator);
    SplitLastCount(hashed, Separator, 3);
    JoinSplit(hashed, Separator, 3);
    JoinFour(fields, Separator);
  }
}
