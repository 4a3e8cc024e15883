/** internal/invite and internal/emailinvite: recovering 16 bytes from twelve BIP-39 words. */
module Mnemonic {
  import opened Base
  import Protocol

  const TOKEN_SIZE := 16

  /** go-bip39: words for an entropy, and the number the words spell, checksum included. */
  datatype Bip39 = Bip39(newMnemonic: bytes -> Result<string>, toByteArray: string -> Result<bytes>,
                         checksum: bytes -> nat)

  /** For 128-bit entropy: 132 bits, the entropy and then its 4-bit checksum, in 17 bytes. */
  ghost predicate Contract(lib: Bip39) {
    forall entropy: bytes :: |entropy| == TOKEN_SIZE ==>
      var words := lib.newMnemonic(entropy);
      && lib.checksum(entropy) < 16 && words.Ok?
      && Trim(words.value) == words.value
      && lib.toByteArray(words.value) == Ok(Checksummed(entropy, lib.checksum(entropy)))
  }

  // ---- Bits of a byte ------------------------------------------------------

  function Or(a: nat, b: nat): nat {
    if a == 0 && b == 0 then 0
    else (if a % 2 == 1 || b % 2 == 1 then 1 else 0) + 2 * Or(a / 2, b / 2)
  }

  lemma OrEven(x: nat, b: nat)
    ensures Or(2 * x, b) == b % 2 + 2 * Or(x, b / 2)
  {
  }

  lemma OrOfNibbles(x: nat, b: nat)
    requires b < 16
    ensures Or(16 * x, b) == 16 * x + b
  {
    hide Or;
    OrEven(8 * x, b);
    OrEven(4 * x, b / 2);
    OrEven(2 * x, b / 4);
    OrEven(x, b / 8);
    OrZero(x);
  }

  lemma {:induction false} OrZero(a: nat)
    ensures Or(a, 0) == a
  {
    if a > 0 {
      OrZero(a / 2);
    }
  }

  lemma DropHighNibble(high: nat, low: nat)
    requires low < 16
    ensures ((16 * high + low) * 16) % 256 == 16 * low
  {
    var n, r := (16 * high + low) * 16, 16 * low;
    assert n == 256 * high + r;
  }

  lemma JoinNibbles(hi: byte, lo: byte)
    ensures Or((hi as int * 16) % 256, lo as int / 16) == (hi as int % 16) * 16 + lo as int / 16 < 256
  {
    hide Or;
    DropHighNibble(hi as int / 16, hi as int % 16);
    OrOfNibbles(hi as int % 16, lo as int / 16);
  }

  /** (hi << 4) | (lo >> 4) in uint8. */
  function Join(hi: byte, lo: byte): (b: byte)
    ensures b as int == (hi as int % 16) * 16 + lo as int / 16
  {
    JoinNibbles(hi, lo);
    Or((hi as int * 16) % 256, lo as int / 16)
  }

  // ---- The decoders --------------------------------------------------------

  function Shifted(raw: bytes, k: nat): (out: bytes)
    requires k < |raw|
    ensures |out| == k
  {
    seq(k, i requires 0 <= i < k => Join(raw[i], raw[i + 1]))
  }

  function Recovered(raw: bytes): Result<bytes> {
    if |raw| < TOKEN_SIZE then Err("token too short")
    else if |raw| == TOKEN_SIZE then Ok(raw)
    else Ok(Shifted(raw, TOKEN_SIZE))
  }

  method TokenFromMnemonic(lib: Bip39, mnemonic: string) returns (r: Result<bytes>)
    ensures r == var raw := lib.toByteArray(mnemonic); if raw.Err? then raw else Recovered(raw.value)
    ensures r.Err? <==> lib.toByteArray(mnemonic).Err? || |lib.toByteArray(mnemonic).value| < 16
    ensures r.Ok? && |lib.toByteArray(mnemonic).value| == 16 ==> r == lib.toByteArray(mnemonic)
  {
    var decoded := lib.toByteArray(mnemonic);
    if decoded.Err? {
      return decoded;
    }
    var raw := decoded.value;
    if |raw| < 17 {
      if |raw| < TOKEN_SIZE {
        return Err("token too short");
      }
      assert raw[..TOKEN_SIZE] == raw;
      return Ok(raw[..TOKEN_SIZE]);
    }
    var out := ShiftLoop(raw);
    r := Ok(out);
  }

  method ShiftLoop(raw: bytes) returns (out: bytes)
    requires |raw| > TOKEN_SIZE
    ensures out == Shifted(raw, TOKEN_SIZE)
  {
    var buffer := new byte[TOKEN_SIZE](_ => 0);
    for i := 0 to TOKEN_SIZE
      invariant buffer[..i] == Shifted(raw, i)
    {
      buffer[i] := Join(raw[i], raw[i + 1]);
      assert buffer[..i + 1] == buffer[..i] + [buffer[i]];
    }
    out := buffer[..];
    assert out == buffer[..TOKEN_SIZE];
  }

  /** unicode.IsSpace. */
  predicate IsSpace(c: char) {
    || c == ' ' || '\t' <= c <= '\r' || c == '\U{85}' || c == '\U{A0}' || c == '\U{1680}'
    || '\U{2000}' <= c <= '\U{200A}' || c == '\U{2028}' || c == '\U{2029}' || c == '\U{202F}'
    || c == '\U{205F}' || c == '\U{3000}'
  }

  function Trim(s: string): (t: string)
    ensures |t| <= |s|
    ensures t != "" ==> !IsSpace(t[0]) && !IsSpace(t[|t| - 1])
  {
    if s != "" && IsSpace(s[0]) then Trim(s[1..])
    else if s != "" && IsSpace(s[|s| - 1]) then Trim(s[..|s| - 1])
    else s
  }

  method WordsToSecret(lib: Bip39, words: string) returns (r: Result<bytes>)
    ensures r == var raw := lib.toByteArray(Trim(words)); if raw.Err? then raw else Recovered(raw.value)
    ensures r.Err? <==> lib.toByteArray(Trim(words)).Err? || |lib.toByteArray(Trim(words)).value| < 16
    ensures r.Ok? && |lib.toByteArray(Trim(words)).value| == 16 ==> r == lib.toByteArray(Trim(words))
  {
    var decoded := lib.toByteArray(Trim(words));
    if decoded.Err? {
      return decoded;
    }
    var raw := decoded.value;
    if |raw| < TOKEN_SIZE + 1 {
      if |raw| < TOKEN_SIZE {
        return Err("token too short");
      }
      assert raw[..TOKEN_SIZE] == raw;
      return Ok(raw[..TOKEN_SIZE]);
    }
    var out := ShiftLoop(raw);
    r := Ok(out);
  }

  // ---- What the shift computes ---------------------------------------------

  /** What toByteArray returns for an entropy and a 4-bit checksum. */
  function Checksummed(entropy: bytes, checksum: nat): (raw: bytes)
    ensures |raw| == |entropy| + 1
  {
    Be(FromBe(entropy) * 16 + checksum, |entropy| + 1)
  }

  /** Without the last entropy byte it is the same form, with that byte's high nibble as checksum. */
  lemma LastByte(entropy: bytes, checksum: nat)
    requires entropy != [] && checksum < 16
    ensures var last := entropy[|entropy| - 1] as int;
      Checksummed(entropy, checksum)
        == Checksummed(entropy[..|entropy| - 1], last / 16) + [last % 16 * 16 + checksum]
  {
    var front, last := FromBe(entropy[..|entropy| - 1]), entropy[|entropy| - 1] as int;
    var number := (256 * front + last) * 16 + checksum;
    assert number == 256 * (16 * front + last / 16) + (last % 16 * 16 + checksum);
    assert number / 256 == front * 16 + last / 16 && number % 256 == last % 16 * 16 + checksum;
  }

  /** The shift recovers every entropy, whatever the checksum, which ends up in the low
      nibble of the last byte. */
  lemma {:induction false} ShiftRecovers(entropy: bytes, checksum: nat)
    requires checksum < 16
    ensures Shifted(Checksummed(entropy, checksum), |entropy|) == entropy
    ensures Checksummed(entropy, checksum)[|entropy|] as int % 16 == checksum
  {
    hide Checksummed, Join, Or;
    if entropy == [] {
      NoEntropy(checksum);
    } else {
      var n := |entropy|;
      var front, last := entropy[..n - 1], entropy[n - 1] as int;
      var raw, shorter := Checksummed(entropy, checksum), Checksummed(front, last / 16);
      LastByte(entropy, checksum);
      ShiftRecovers(front, last / 16);
      hide Shifted;
      ShiftedFront(raw, shorter);
      assert raw[n - 1] == shorter[n - 1];
      assert Join(raw[n - 1], raw[n]) as int == last;
      assert entropy == front + [entropy[n - 1]];
    }
  }

  lemma ShiftedFront(raw: bytes, shorter: bytes)
    requires |raw| > 1 && raw[..|raw| - 1] == shorter
    ensures Shifted(raw, |raw| - 1) == Shifted(shorter, |raw| - 2) + [Join(raw[|raw| - 2], raw[|raw| - 1])]
  {
    hide Join;
    var n := |raw| - 1;
    forall i | 0 <= i < n - 1 ensures Shifted(raw, n)[i] == Shifted(shorter, n - 1)[i] {
      assert raw[i] == shorter[i] && raw[i + 1] == shorter[i + 1];
    }
  }

  lemma NoEntropy(checksum: nat)
    requires checksum < 16
    ensures Checksummed([], checksum) == [checksum]
  {
    assert Be(checksum / 256, 0) == [];
  }

  /** Both decoders recover every 16-byte secret from the words that encode it. */
  lemma WordsRoundTrip(lib: Bip39, secret: bytes)
    requires Contract(lib) && |secret| == TOKEN_SIZE
    ensures var words := lib.newMnemonic(secret);
      && words.Ok? && Trim(words.value) == words.value
      && var raw := lib.toByteArray(words.value); raw.Ok? && Recovered(raw.value) == Ok(secret)
  {
    hide Checksummed, Trim, Shifted;
    assert lib.newMnemonic(secret).Ok?;
    ShiftRecovers(secret, lib.checksum(secret));
  }

  function HexWords(entropy: bytes): Result<string> { Ok(Protocol.Hex(entropy)) }

  function HexBytes(words: string): Result<bytes> {
    match Protocol.Unhex(words)
    case None => Err("not hex")
    case Some(entropy) => Ok(Checksummed(entropy, 0))
  }

  /** Some library meets the contract: hex text for words and a zero checksum. */
  lemma ContractIsSatisfiable() returns (lib: Bip39)
    ensures Contract(lib)
  {
    lib := Bip39(HexWords, HexBytes, _ => 0);
    forall entropy: bytes | |entropy| == TOKEN_SIZE
      ensures Trim(Protocol.Hex(entropy)) == Protocol.Hex(entropy)
      ensures HexBytes(Protocol.Hex(entropy)) == Ok(Checksummed(entropy, 0))
    {
      Protocol.UnhexHex(entropy);
      HexHasNoSpace(entropy);
    }
  }

  lemma {:induction false} HexHasNoSpace(b: bytes)
    ensures forall i :: 0 <= i < |Protocol.Hex(b)| ==> !IsSpace(Protocol.Hex(b)[i])
  {
    if b != [] {
      HexHasNoSpace(b[1..]);
    }
  }

  ghost predicate AllSpace(s: string) { forall i :: 0 <= i < |s| ==> IsSpace(s[i]) }

  /** Trimming takes white space off both ends and nothing else. */
  lemma {:induction false} TrimTakesOnlySpace(s: string) returns (front: string, back: string)
    ensures s == front + Trim(s) + back && AllSpace(front) && AllSpace(back)
    decreases |s|
  {
    hide IsSpace, Trim;
    TrimUnfold(s);
    front, back := "", "";
    if s != "" && IsSpace(s[0]) {
      var f;
      f, back := TrimTakesOnlySpace(s[1..]);
      front := [s[0]] + f;
      assert front + Trim(s) + back == [s[0]] + (f + Trim(s[1..]) + back);
    } else if s != "" && IsSpace(s[|s| - 1]) {
      var b;
      front, b := TrimTakesOnlySpace(s[..|s| - 1]);
      back := b + [s[|s| - 1]];
      assert front + Trim(s) + back == (front + Trim(s[..|s| - 1]) + b) + [s[|s| - 1]];
    } else {
      assert "" + s + "" == s;
    }
  }

  lemma TrimUnfold(s: string)
    ensures Trim(s) ==
      if s != "" && IsSpace(s[0]) then Trim(s[1..])
      else if s != "" && IsSpace(s[|s| - 1]) then Trim(s[..|s| - 1])
      else s
  {
  }
}
