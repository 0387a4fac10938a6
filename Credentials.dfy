/** The stored credential record `pbkdf2_sha256$<iterations>$<salt_hex>$<key_hex>`:
    `hash_password` writes it and `verify_password` parses it and checks a
    candidate password against it, failing closed on every malformed record. */
module Credentials {
  import opened Wrappers
  import opened Text
  import opened Hex

  /** The largest count `hashlib.pbkdf2_hmac` accepts: the count must fit a
      C `int`, and a larger one raises `OverflowError`. */
  const MaxIterations := 0x7FFF_FFFF

  /** An iteration count PBKDF2 accepts; `hashlib.pbkdf2_hmac` raises
      `ValueError` below one and `OverflowError` above `MaxIterations`. */
  type Iterations = n: int | 1 <= n <= MaxIterations witness 1

  /** PBKDF2-HMAC-SHA256 (section 5.2 of RFC 8018) over the UTF-8 bytes of
      the password. The model knows nothing about it except that it is a
      deterministic function of its three arguments. */
  type Kdf = (string, seq<Byte>, Iterations) -> seq<Byte>

  const Algorithm := "pbkdf2_sha256"
  const Separator := '$'
  const DefaultIterations := 100_000
  const SaltLength := 16

  /** The output of `os.urandom(16)`. */
  type Salt = s: seq<Byte> | |s| == SaltLength witness seq(SaltLength, _ => 0)

  /** `hash_password(password, iterations)` with the random salt passed in.
      `None` is the error the key derivation raises for a count out of
      range. */
  function HashPassword(kdf: Kdf, password: string, salt: Salt, iterations: int): (r: Option<string>)
    ensures r.Some? <==> 1 <= iterations <= MaxIterations
  {
    if iterations < 1 || iterations > MaxIterations then None
    else Some(Join([Algorithm, NatToString(iterations), Hexlify(salt), Hexlify(kdf(password, salt, iterations))], Separator))
  }

  /** `verify_password(stored, password)`. Each `false` before the final
      comparison stands for an exception the `except Exception` turns into
      `False`: the tuple unpacking of the split, the tag check, `int()`,
      `unhexlify` and the key derivation's refusal of a count out of range.
      A record that verifies has the tag, a count in range, a salt field
      that decodes, and the hex of the key derived from the password as its
      last field. */
  function VerifyPassword(kdf: Kdf, stored: string, password: string): (r: bool)
    ensures r ==> var fields := Split(stored, Separator);
      && |fields| == 4
      && fields[0] == Algorithm
      && ParseInt(fields[1]).Some? && 1 <= ParseInt(fields[1]).value <= MaxIterations
      && Unhexlify(fields[2]).Some?
      && fields[3] == Hexlify(kdf(password, Unhexlify(fields[2]).value, ParseInt(fields[1]).value))
  {
    var fields := Split(stored, Separator);
    if |fields| != 4 then false
    else if fields[0] != Algorithm then false
    else match (ParseInt(fields[1]), Unhexlify(fields[2]))
      case (Some(n), Some(salt)) =>
        if n < 1 || n > MaxIterations then false else Hexlify(kdf(password, salt, n)) == fields[3]
      case _ => false
  }

  lemma SeparatorFree()
    ensures Separator !in Algorithm
    ensures forall n: nat :: Separator !in NatToString(n)
    ensures forall b: seq<Byte> :: Separator !in Hexlify(b)
  {
    forall n: nat ensures Separator !in NatToString(n) {
      var r := NatToString(n);
      assert forall k :: 0 <= k < |r| ==> IsDigit(r[k]);
    }
  }

  /** The record has exactly four `$`-separated fields: the algorithm tag,
      the count in decimal, the 32 lower-case hex digits of the 16-byte salt
      and the lower-case hex of the derived key. */
  lemma {:induction false} HashPasswordFields(kdf: Kdf, password: string, salt: Salt, iterations: int)
    requires 1 <= iterations <= MaxIterations
    ensures var fields := Split(HashPassword(kdf, password, salt, iterations).value, Separator);
      && |fields| == 4
      && fields[0] == Algorithm
      && fields[1] == NatToString(iterations)
      && ParseInt(fields[1]) == Some(iterations)
      && |fields[2]| == 2 * SaltLength
      && (forall k :: 0 <= k < |fields[2]| ==> IsLowerHexDigit(fields[2][k]))
      && Unhexlify(fields[2]) == Some(salt)
      && fields[3] == Hexlify(kdf(password, salt, iterations))
  {
    SeparatorFree();
    NatToStringLength(iterations, 10);
    var parts := [Algorithm, NatToString(iterations), Hexlify(salt), Hexlify(kdf(password, salt, iterations))];
    SplitJoin(parts, Separator);
    ParseNatToString(iterations);
    UnhexlifyHexlify(salt);
  }

  /** The round trip: a record written for a password verifies against that
      same password, for every count the derivation accepts and every salt. */
  lemma VerifyHashPassword(kdf: Kdf, password: string, salt: Salt, iterations: int)
    requires 1 <= iterations <= MaxIterations
    ensures VerifyPassword(kdf, HashPassword(kdf, password, salt, iterations).value, password)
  {
    HashPasswordFields(kdf, password, salt, iterations);
  }

  /** The converse of `VerifyPassword`'s contract: every well-formed record
      whose key field is the lower-case hex of the derived key verifies.
      The count may be any spelling `int()` accepts (padded with the
      whitespace `int()` skips, with leading zeros) and the salt field any
      hex that `unhexlify` decodes, of either case. */
  lemma VerifyWellFormedRecord(kdf: Kdf, password: string, count: string, saltField: string)
    requires Separator !in count && Separator !in saltField
    requires ParseInt(count).Some? && 1 <= ParseInt(count).value <= MaxIterations
    requires Unhexlify(saltField).Some?
    ensures VerifyPassword(kdf, Join([Algorithm, count, saltField,
                                      Hexlify(kdf(password, Unhexlify(saltField).value, ParseInt(count).value))], Separator), password)
  {
    var key := Hexlify(kdf(password, Unhexlify(saltField).value, ParseInt(count).value));
    SeparatorFree();
    SplitRecord(count, saltField, key);
    VerifySplitRecord(kdf, Join([Algorithm, count, saltField, key], Separator), password, count, saltField);
  }

  /** A record of `$`-free fields splits back into its four fields. */
  lemma SplitRecord(count: string, saltField: string, key: string)
    requires Separator !in count && Separator !in saltField && Separator !in key
    ensures Split(Join([Algorithm, count, saltField, key], Separator), Separator) == [Algorithm, count, saltField, key]
  {
    SeparatorFree();
    SplitJoin([Algorithm, count, saltField, key], Separator);
  }

  /** A record that splits into the four expected fields verifies. */
  lemma VerifySplitRecord(kdf: Kdf, stored: string, password: string, count: string, saltField: string)
    requires ParseInt(count).Some? && 1 <= ParseInt(count).value <= MaxIterations
    requires Unhexlify(saltField).Some?
    requires Split(stored, Separator) == [Algorithm, count, saltField,
                                          Hexlify(kdf(password, Unhexlify(saltField).value, ParseInt(count).value))]
    ensures VerifyPassword(kdf, stored, password)
  {
  }

  /** A candidate whose derived key differs from the stored password's is
      refused. */
  lemma VerifyWrongPassword(kdf: Kdf, password: string, candidate: string, salt: Salt, iterations: int)
    requires 1 <= iterations <= MaxIterations
    requires kdf(candidate, salt, iterations) != kdf(password, salt, iterations)
    ensures !VerifyPassword(kdf, HashPassword(kdf, password, salt, iterations).value, candidate)
  {
    HashPasswordFields(kdf, password, salt, iterations);
    if Hexlify(kdf(candidate, salt, iterations)) == Hexlify(kdf(password, salt, iterations)) {
      HexlifyInjective(kdf(candidate, salt, iterations), kdf(password, salt, iterations));
    }
  }

  /** Two records written with different salts differ, even for the same
      password and count. */
  lemma HashPasswordSaltsDiffer(kdf: Kdf, password: string, salt1: Salt, salt2: Salt, iterations: int)
    requires 1 <= iterations <= MaxIterations
    requires salt1 != salt2
    ensures HashPassword(kdf, password, salt1, iterations) != HashPassword(kdf, password, salt2, iterations)
  {
    HashPasswordFields(kdf, password, salt1, iterations);
    HashPasswordFields(kdf, password, salt2, iterations);
  }

  /** Verification fails closed: each kind of malformed record is refused
      whatever the candidate password. Stated on the raw record: the number
      of `$` in it, its leading tag, and the shape of its fields (a count
      `int()` refuses, such as one padded with U+001C..U+001F, included). */
  lemma VerifyFailsClosed(kdf: Kdf, stored: string, password: string)
    ensures Count(Separator, stored) != 3 ==> !VerifyPassword(kdf, stored, password)
    ensures var fields := Split(stored, Separator);
      && (fields[0] != Algorithm ==> !VerifyPassword(kdf, stored, password))
      && (|fields| == 4 && ParseInt(fields[1]) == None ==> !VerifyPassword(kdf, stored, password))
      && (|fields| == 4 && fields[1] != [] && (('\U{1C}' <= fields[1][0] <= '\U{1F}') || ('\U{1C}' <= fields[1][|fields[1]| - 1] <= '\U{1F}')) ==>
            !VerifyPassword(kdf, stored, password))
      && (|fields| == 4 && ParseInt(fields[1]).Some? && ParseInt(fields[1]).value < 1 ==> !VerifyPassword(kdf, stored, password))
      && (|fields| == 4 && ParseInt(fields[1]).Some? && ParseInt(fields[1]).value > MaxIterations ==> !VerifyPassword(kdf, stored, password))
      && (|fields| == 4 && |fields[2]| % 2 == 1 ==> !VerifyPassword(kdf, stored, password))
      && (|fields| == 4 && (exists k :: 0 <= k < |fields[2]| && HexValue(fields[2][k]) == None) ==> !VerifyPassword(kdf, stored, password))
  {
    SplitLength(stored, Separator);
    var fields := Split(stored, Separator);
    if |fields| == 4 {
      UnhexlifyDefined(fields[2]);
      var count := fields[1];
      if count != [] && (('\U{1C}' <= count[0] <= '\U{1F}') || ('\U{1C}' <= count[|count| - 1] <= '\U{1F}')) {
        ParseIntRefusesSeparators(count);
      }
    }
  }

  /** The comparison is exact against lower-case hex: a key field holding
      an upper-case letter, or of odd length, never verifies. */
  lemma VerifyNeedsLowerHexKey(kdf: Kdf, stored: string, password: string)
    requires VerifyPassword(kdf, stored, password)
    ensures var key := Split(stored, Separator)[3];
      && |key| % 2 == 0
      && forall k :: 0 <= k < |key| ==> IsLowerHexDigit(key[k]) && !IsAsciiUpper(key[k])
  {
  }

  /** A record that verifies is, but for the spelling of its count and the
      case of its salt digits, the one `hash_password` would write for the
      given password with the same salt and count. */
  lemma {:induction false} VerifyAcceptsOnlyDerivedKey(kdf: Kdf, stored: string, password: string)
    requires VerifyPassword(kdf, stored, password)
    ensures var fields := Split(stored, Separator);
      && |fields| == 4
      && ParseInt(fields[1]).Some? && 1 <= ParseInt(fields[1]).value <= MaxIterations
      && Unhexlify(fields[2]).Some?
      && var n, salt := ParseInt(fields[1]).value, Unhexlify(fields[2]).value;
         && Hexlify(salt) == AsciiLower(fields[2])
         && stored == Join([Algorithm, fields[1], fields[2], Hexlify(kdf(password, salt, n))], Separator)
  {
    var fields := Split(stored, Separator);
    JoinSplit(stored, Separator);
    HexlifyUnhexlify(fields[2]);
    assert fields == [fields[0], fields[1], fields[2], fields[3]];
  }
}
