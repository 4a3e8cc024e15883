/** Bytes, results and the few sequence facts every other module uses. */
module Base {

  type byte = b: int | 0 <= b < 256
  type bytes = seq<byte>

  const INT64 := 0x8000_0000_0000_0000  // Go's int and time.Duration hold less than this

  datatype Option<+T> = None | Some(value: T)

  datatype Result<+T> = Ok(value: T) | Err(error: string)

  function Zeros(n: nat): (z: bytes)
    ensures |z| == n
  {
    seq(n, _ => 0)
  }

  /** The pieces written one after another. */
  function Concat<T>(pieces: seq<seq<T>>): seq<T> {
    if pieces == [] then [] else pieces[0] + Concat(pieces[1..])
  }

  lemma {:induction false} ConcatAppend<T>(a: seq<seq<T>>, b: seq<seq<T>>)
    ensures Concat(a + b) == Concat(a) + Concat(b)
  {
    if a == [] {
      assert a + b == b;
    } else {
      assert (a + b)[1..] == a[1..] + b;
      ConcatAppend(a[1..], b);
    }
  }

  lemma ConcatCons<T>(x: seq<T>, a: seq<seq<T>>)
    ensures Concat([x] + a) == x + Concat(a)
  {
    assert ([x] + a)[1..] == a;
  }

  lemma ConcatSnoc<T>(a: seq<seq<T>>, x: seq<T>)
    ensures Concat(a + [x]) == Concat(a) + x
  {
    ConcatAppend(a, [x]);
    assert [x][1..] == [];
    assert Concat([x]) == x;
  }

  /** Concatenations of pieces of one fixed width are equal only if the pieces are. */
  lemma {:induction false} ConcatInjective<T>(a: seq<seq<T>>, b: seq<seq<T>>, width: nat)
    requires width > 0
    requires forall i :: 0 <= i < |a| ==> |a[i]| == width
    requires forall i :: 0 <= i < |b| ==> |b[i]| == width
    requires Concat(a) == Concat(b)
    ensures a == b
  {
    if a != [] && b != [] {
      var ca, cb := Concat(a), Concat(b);
      assert |a[0]| == width && |b[0]| == width;
      assert ca[..width] == a[0] && cb[..width] == b[0];
      assert ca[width..] == Concat(a[1..]) && cb[width..] == Concat(b[1..]);
      ConcatInjective(a[1..], b[1..], width);
      assert a == [a[0]] + a[1..] && b == [b[0]] + b[1..];
    }
  }

  // ---- Fixed-width numbers -------------------------------------------------

  function Pow256(k: nat): (p: nat)
    ensures p > 0
  {
    if k == 0 then 1 else 256 * Pow256(k - 1)
  }

  /** The low `k` bytes of n, least significant first. */
  function Le(n: nat, k: nat): (h: bytes)
    ensures |h| == k
  {
    if k == 0 then [] else [n % 256] + Le(n / 256, k - 1)
  }

  function FromLe(h: bytes): nat {
    if h == [] then 0 else h[0] as int + 256 * FromLe(h[1..])
  }

  lemma {:induction false} LeRoundTrip(n: nat, k: nat)
    requires n < Pow256(k)
    ensures FromLe(Le(n, k)) == n
  {
    if k > 0 {
      LeRoundTrip(n / 256, k - 1);
      assert Le(n, k)[1..] == Le(n / 256, k - 1);
    }
  }

  /** The same, most significant byte first. */
  function Be(n: nat, k: nat): (h: bytes)
    ensures |h| == k
  {
    if k == 0 then [] else Be(n / 256, k - 1) + [n % 256]
  }

  function FromBe(h: bytes): nat {
    if h == [] then 0 else 256 * FromBe(h[..|h| - 1]) + h[|h| - 1] as int
  }

  lemma {:induction false} BeRoundTrip(n: nat, k: nat)
    requires n < Pow256(k)
    ensures FromBe(Be(n, k)) == n
  {
    if k > 0 {
      BeRoundTrip(n / 256, k - 1);
      assert Be(n, k)[..k - 1] == Be(n / 256, k - 1);
    }
  }

  /** A number has one big-endian form of a given width. */
  lemma {:induction false} BeIsUnique(h: bytes)
    ensures Be(FromBe(h), |h|) == h && FromBe(h) < Pow256(|h|)
  {
    if h != [] {
      var front, last := h[..|h| - 1], h[|h| - 1];
      BeIsUnique(front);
      assert FromBe(h) / 256 == FromBe(front) && FromBe(h) % 256 == last as int;
      assert h == front + [last];
    }
  }

  lemma FourBytes()
    ensures Pow256(4) == 0x1_0000_0000
  {
    assert Pow256(3) == 256 * Pow256(2) && Pow256(2) == 256 * Pow256(1) && Pow256(1) == 256;
  }

  // ---- Division ------------------------------------------------------------

  lemma ModIsUnique(x: int, m: int, q: int, r: int)
    requires m > 0 && x == m * q + r && 0 <= r < m
    ensures x % m == r && x / m == q
  {
    var d := x / m - q;
    assert m * d == r - x % m;
    MultipleGap(m, d);
  }

  lemma MultipleGap(m: int, d: int)
    requires m > 0
    ensures d == 0 || m * d >= m || m * d <= -m
  {
    if d > 0 {
      assert m * (d - 1) >= 0;
    } else if d < 0 {
      assert m * (-d - 1) >= 0;
    }
  }
}
