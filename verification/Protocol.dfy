/** pkg/protocol: the records the components share, and the hex text of a hash. */
module Protocol {
  import opened Base
  import opened Foreign

  /** Nanoseconds; ZERO_TIME is Go's zero time, which marks an unset field. */
  type Time = int
  const ZERO_TIME: Time := -62_135_596_800 * 1_000_000_000

  datatype ShardLocation = ShardLocation(shardIndex: int, isParity: bool)

  datatype ManifestEntry = ManifestEntry(
    fileId: string, path: string, hash: string, size: nat, modified: Time,
    scheme: Scheme, shards: seq<ShardLocation>, version: int, backedAt: Time, compressed: bool)

  /** The scheme for a number of buddies; a 1/1 mirror is never chosen. */
  function BestScheme(buddies: int): (r: Result<Scheme>)
    ensures r.Ok? <==> buddies >= 3
    ensures r.Ok? ==> r.value.dataShards >= 2 && 1 <= r.value.parityShards < r.value.dataShards
                      && r.value.Total() <= buddies
    ensures r.Ok? ==> r.value.Total() in [3, 5, 8, 10] && (forall t :: t in [3, 5, 8, 10] && t <= buddies ==> t <= r.value.Total())
    ensures r.Ok? ==> r.value.parityShards == (r.value.Total() + 2) / 3
  {
    if buddies >= 10 then Ok(Scheme(6, 4))
    else if buddies >= 8 then Ok(Scheme(5, 3))
    else if buddies >= 5 then Ok(Scheme(3, 2))
    else if buddies >= 3 then Ok(Scheme(2, 1))
    else Err("insufficient buddies")
  }

  const DIGITS := "0123456789abcdef"

  function HexDigit(n: int): char
    requires 0 <= n < 16
  {
    DIGITS[n]
  }

  /** Upper case is accepted on the way in, never written on the way out. */
  function HexValue(c: char): Option<int> {
    if '0' <= c <= '9' then Some(c as int - '0' as int)
    else if 'a' <= c <= 'f' then Some(c as int - 'a' as int + 10)
    else if 'A' <= c <= 'F' then Some(c as int - 'A' as int + 10)
    else None
  }

  function Hex(b: bytes): (s: string)
    ensures |s| == 2 * |b|
  {
    if b == [] then "" else [HexDigit(b[0] / 16), HexDigit(b[0] % 16)] + Hex(b[1..])
  }

  function Unhex(s: string): Option<bytes> {
    if |s| == 0 then Some([])
    else if |s| == 1 then None
    else match (HexValue(s[0]), HexValue(s[1]), Unhex(s[2..]))
      case (Some(hi), Some(lo), Some(rest)) => if 0 <= hi < 16 && 0 <= lo < 16 then Some([16 * hi + lo] + rest) else None
      case _ => None
  }

  lemma DigitRoundTrip(n: int)
    requires 0 <= n < 16
    ensures HexValue(HexDigit(n)) == Some(n)
  {
    assert n <= 9 ==> HexDigit(n) == '0' + n as char;
    assert n >= 10 ==> HexDigit(n) == 'a' + (n - 10) as char;
  }

  lemma HexCons(b: bytes)
    requires b != []
    ensures Hex(b) == [HexDigit(b[0] / 16), HexDigit(b[0] % 16)] + Hex(b[1..])
  {
  }

  lemma UnhexCons(hi: int, lo: int, rest: string)
    requires 0 <= hi < 16 && 0 <= lo < 16 && Unhex(rest).Some?
    ensures Unhex([HexDigit(hi), HexDigit(lo)] + rest) == Some([16 * hi + lo] + Unhex(rest).value)
  {
    hide HexDigit, HexValue;
    var s := [HexDigit(hi), HexDigit(lo)] + rest;
    DigitRoundTrip(hi);
    DigitRoundTrip(lo);
    assert s[0] == HexDigit(hi) && s[1] == HexDigit(lo) && s[2..] == rest;
  }

  lemma {:induction false} UnhexHex(b: bytes)
    ensures Unhex(Hex(b)) == Some(b)
  {
    hide Unhex, Hex, HexDigit;
    if b == [] {
      NoHex();
    } else {
      UnhexHex(b[1..]);
      HexCons(b);
      UnhexCons(b[0] / 16, b[0] % 16, Hex(b[1..]));
      assert 16 * (b[0] / 16) + b[0] % 16 == b[0];
      assert b == [b[0]] + b[1..];
    }
  }

  lemma NoHex()
    ensures Hex([]) == "" && Unhex("") == Some([])
  {
  }

  lemma HexInjective(a: bytes, b: bytes)
    requires Hex(a) == Hex(b)
    ensures a == b
  {
    UnhexHex(a);
    UnhexHex(b);
  }

  /** fileIDFromHash: the store directory of a content, 16 hex characters. */
  function StoreKey(hash: bytes): string
    requires |hash| == HASH_SIZE
  {
    Hex(hash[..8])
  }

  /** The text form of a manifest FileID: 8-4-4-4-12 lower-case hex digits. */
  predicate IsUuid(s: string) {
    && |s| == 36
    && forall i :: 0 <= i < 36 ==>
         if i == 8 || i == 13 || i == 18 || i == 23 then s[i] == '-'
         else ('0' <= s[i] <= '9' || 'a' <= s[i] <= 'f')
  }

  /** Store keys and manifest FileIDs are different name spaces. */
  lemma StoreKeyIsNoUuid(hash: bytes)
    requires |hash| == HASH_SIZE
    ensures !IsUuid(StoreKey(hash))
  {
    assert |StoreKey(hash)| == 2 * |hash[..8]| == 16;
  }

  predicate IsHexDigit(c: char) { '0' <= c <= '9' || 'a' <= c <= 'f' || 'A' <= c <= 'F' }

  /** Text decodes if and only if it is an even number of hex digits of either case. */
  lemma {:induction false} UnhexIff(s: string)
    ensures Unhex(s).Some? <==> |s| % 2 == 0 && forall i :: 0 <= i < |s| ==> IsHexDigit(s[i])
    ensures Unhex(s).Some? ==> 2 * |Unhex(s).value| == |s|
    decreases |s|
  {
    if |s| >= 2 {
      UnhexIff(s[2..]);
      assert s == [s[0], s[1]] + s[2..];
    }
  }

  /** A store key is the lower-case hex text of the first eight bytes of the hash. */
  lemma StoreKeyIs(hash: bytes)
    requires |hash| == HASH_SIZE
    ensures |StoreKey(hash)| == 16 && Unhex(StoreKey(hash)) == Some(hash[..8])
    ensures forall i :: 0 <= i < 16 ==> '0' <= StoreKey(hash)[i] <= '9' || 'a' <= StoreKey(hash)[i] <= 'f'
  {
    UnhexHex(hash[..8]);
    HexIsLowerCase(hash[..8]);
  }

  lemma {:induction false} HexIsLowerCase(b: bytes)
    ensures forall i :: 0 <= i < |Hex(b)| ==> '0' <= Hex(b)[i] <= '9' || 'a' <= Hex(b)[i] <= 'f'
  {
    if b != [] {
      HexIsLowerCase(b[1..]);
      DigitIsLowerCase(b[0] / 16);
      DigitIsLowerCase(b[0] % 16);
      hide HexDigit;
    }
  }

  lemma DigitIsLowerCase(n: int)
    requires 0 <= n < 16
    ensures '0' <= HexDigit(n) <= '9' || 'a' <= HexDigit(n) <= 'f'
  {
  }
}
