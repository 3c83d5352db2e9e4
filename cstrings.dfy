/**
 * Fixed-width integers and NUL-terminated byte strings, as the firmware's C code
 * sees them: `strlen`, `strncmp`, `printf("%d")` and `tolower`.
 *
 * A C string is modelled as the sequence of its bytes BEFORE the terminator, so
 * every such sequence satisfies `NoNul`; a fixed-size `char[]` field is a raw
 * byte sequence whose string is `CString(buf)`.
 */
module CStrings {

  type byte = x: int | 0 <= x < 0x100
  type u16 = x: int | 0 <= x < 0x1_0000
  type u32 = x: int | 0 <= x < 0x1_0000_0000

  const Nul: byte := 0
  const Comma: byte := 44
  const CarriageReturn: byte := 13
  const LineFeed: byte := 10

  /** The bytes of an ASCII string literal. */
  function Ascii(s: string): (r: seq<byte>)
    ensures |r| == |s|
  {
    seq(|s|, k requires 0 <= k < |s| => (s[k] as int) % 0x100)
  }

  /** The C conversion of an `int` to a 32-bit unsigned operand (two's complement wrap). */
  function AsUnsigned32(x: int): u32 {
    x % 0x1_0000_0000
  }

  /** No terminator inside: `s` is the content of some C string. */
  predicate NoNul(s: seq<byte>) {
    forall k :: 0 <= k < |s| ==> s[k] != Nul
  }

  /** `strlen` of a string held in the buffer `buf`: the position of its first NUL,
      or the whole buffer if there is none (the model never reads past `buf`). */
  function CLength(buf: seq<byte>): (n: nat)
    ensures n <= |buf|
    ensures forall k :: 0 <= k < n ==> buf[k] != Nul
    ensures n < |buf| ==> buf[n] == Nul
  {
    if buf == [] || buf[0] == Nul then 0 else 1 + CLength(buf[1..])
  }

  /** The string held in the buffer `buf`. */
  function CString(buf: seq<byte>): (s: seq<byte>)
    ensures NoNul(s) && |s| <= |buf|
  {
    buf[..CLength(buf)]
  }

  /** The buffer's string ends at a NUL inside the buffer. */
  predicate Terminated(buf: seq<byte>) {
    exists k :: 0 <= k < |buf| && buf[k] == Nul
  }

  lemma {:induction false} CLengthOfTerminated(buf: seq<byte>)
    requires Terminated(buf)
    ensures CLength(buf) < |buf|
  {
    var k :| 0 <= k < |buf| && buf[k] == Nul;
    assert CLength(buf) <= k;
  }

  /** The string stored in `s + pad` when `s` holds no NUL and `pad` begins with one. */
  lemma {:induction false} CStringOfPadded(s: seq<byte>, pad: seq<byte>)
    requires NoNul(s) && pad != [] && pad[0] == Nul
    ensures CString(s + pad) == s
  {
    if s == [] {
      assert (s + pad)[0] == Nul;
    } else {
      assert (s + pad)[1..] == s[1..] + pad;
      CStringOfPadded(s[1..], pad);
    }
  }

  /** The byte `strncmp` reads at position `k` of a C string (its terminator, then beyond). */
  function ByteAt(s: seq<byte>, k: nat): byte {
    if k < |s| then s[k] else Nul
  }

  /** `strncmp(a, b, n) == 0`: the first `n` bytes agree, stopping early at a common NUL. */
  function StrnEqual(a: seq<byte>, b: seq<byte>, n: nat): bool
    decreases n
  {
    n == 0 ||
    (ByteAt(a, 0) == ByteAt(b, 0) &&
     (ByteAt(a, 0) == Nul || StrnEqual(a[1..], b[1..], n - 1)))
  }

  /** Comparing one byte past the end of `a` (its terminator included) is string equality. */
  lemma {:induction false} StrnEqualWithTerminator(a: seq<byte>, b: seq<byte>)
    requires NoNul(a) && NoNul(b)
    ensures StrnEqual(a, b, |a| + 1) <==> a == b
  {
    if a == [] {
      assert StrnEqual(a, b, 1) <==> b == [];
    } else if b == [] {
      assert ByteAt(b, 0) == Nul && ByteAt(a, 0) != Nul;
    } else {
      StrnEqualWithTerminator(a[1..], b[1..]);
      assert a == b <==> a[0] == b[0] && a[1..] == b[1..] by {
        if a[0] == b[0] && a[1..] == b[1..] {
          assert a == [a[0]] + a[1..] && b == [b[0]] + b[1..];
        }
      }
    }
  }

  /** `strncmp(token, key, strlen(key)) == 0` holds exactly when `key` is a prefix of `token`. */
  lemma {:induction false} StrnEqualIsPrefix(token: seq<byte>, key: seq<byte>)
    requires NoNul(token) && NoNul(key)
    ensures StrnEqual(token, key, |key|) <==> (|key| <= |token| && token[..|key|] == key)
  {
    if key == [] {
    } else if token == [] {
      assert ByteAt(token, 0) == Nul && ByteAt(key, 0) != Nul;
    } else {
      StrnEqualIsPrefix(token[1..], key[1..]);
      if |key| <= |token| {
        assert token[..|key|] == [token[0]] + token[1..][..|key| - 1];
        assert key == [key[0]] + key[1..];
      }
    }
  }

  /** `printf("%d", n)` for a non-negative `n`: its decimal digits, most significant first. */
  function Decimal(n: nat): (s: seq<byte>)
    ensures 1 <= |s|
    ensures forall k :: 0 <= k < |s| ==> '0' as int <= s[k] <= '9' as int
    decreases n
  {
    if n < 10 then ['0' as int + n] else Decimal(n / 10) + ['0' as int + n % 10]
  }

  /** A number below 10^3 has at most three digits, below 10^5 at most five. */
  lemma DecimalLength(n: nat)
    ensures n < 1000 ==> |Decimal(n)| <= 3
    ensures n < 100000 ==> |Decimal(n)| <= 5
  {
    if n >= 10 {
      DecimalLength(n / 10);
    }
  }

  /** Distinct numbers print differently. */
  lemma {:induction false} DecimalInjective(a: nat, b: nat)
    requires Decimal(a) == Decimal(b)
    ensures a == b
  {
    if a >= 10 && b >= 10 {
      var da, db := Decimal(a), Decimal(b);
      assert da[|da| - 1] == '0' as int + a % 10;
      assert db[|db| - 1] == '0' as int + b % 10;
      assert Decimal(a / 10) == da[..|da| - 1];
      assert Decimal(b / 10) == db[..|db| - 1];
      DecimalInjective(a / 10, b / 10);
    }
  }

  /** `tolower` in the C locale. */
  function LowerByte(c: byte): byte {
    if 'A' as int <= c <= 'Z' as int then c + 32 else c
  }

  predicate IsUpper(c: byte) {
    'A' as int <= c <= 'Z' as int
  }

  /** Every byte of `s` passed through `tolower`. */
  function Lowered(s: seq<byte>): (r: seq<byte>)
    ensures |r| == |s|
  {
    if s == [] then [] else [LowerByte(s[0])] + Lowered(s[1..])
  }

  /** Lowering keeps the length and every non-letter, leaves no upper-case letter and is idempotent. */
  lemma {:induction false} LoweredProperties(s: seq<byte>)
    ensures forall k :: 0 <= k < |s| ==> Lowered(s)[k] == LowerByte(s[k])
    ensures forall k :: 0 <= k < |s| && !IsUpper(s[k]) ==> Lowered(s)[k] == s[k]
    ensures forall k :: 0 <= k < |s| ==> !IsUpper(Lowered(s)[k])
    ensures Lowered(Lowered(s)) == Lowered(s)
    ensures NoNul(s) ==> NoNul(Lowered(s))
  {
    if s != [] {
      LoweredProperties(s[1..]);
      assert Lowered(s) == [LowerByte(s[0])] + Lowered(s[1..]);
      assert forall k :: 1 <= k < |s| ==> Lowered(s)[k] == Lowered(s[1..])[k - 1];
      assert Lowered(Lowered(s))
          == [LowerByte(LowerByte(s[0]))] + Lowered(Lowered(s[1..]));
    }
  }
}
