/** C strings as the queue stores them, strcmp, and the bounded copy into a caller's buffer. */
module CStrings {

  /** An unsigned char. */
  type Byte = b: int | 0 <= b < 256

  /** The bytes of a NUL-terminated string, without the terminator: no byte is NUL. */
  type CString = s: seq<Byte> | forall i | 0 <= i < |s| :: s[i] != 0

  /** strcmp (section 7.24.4.2 of ISO C11): bytes are compared as unsigned char, the
      terminator takes part as a 0 byte, and the result is the difference of the first
      pair of bytes that differ. Only its sign is specified, and only its sign is used. */
  function Strcmp(a: CString, b: CString): (r: int)
    ensures r == 0 <==> a == b
  {
    if a == [] && b == [] then 0
    else if a == [] then 0 - b[0]
    else if b == [] then a[0] - 0
    else if a[0] != b[0] then a[0] - b[0]
    else
      var r := Strcmp(a[1..], b[1..]);
      assert r == 0 ==> a == [a[0]] + a[1..] == [b[0]] + b[1..] == b;
      r
  }

  predicate Less(a: CString, b: CString) {
    Strcmp(a, b) < 0
  }

  predicate LessEq(a: CString, b: CString) {
    Strcmp(a, b) <= 0
  }

  /** Lexicographic order, stated independently of Strcmp: after a common prefix of
      length k, either a ends there and b goes on, or a's next byte is smaller. */
  ghost predicate LexLess(a: CString, b: CString) {
    exists k :: 0 <= k <= |a| && k <= |b| && a[..k] == b[..k] &&
      ((k == |a| && k < |b|) || (k < |a| && k < |b| && a[k] < b[k]))
  }

  /** Swapping the operands negates the result. */
  lemma {:induction false} StrcmpSwap(a: CString, b: CString)
    ensures Strcmp(b, a) == -Strcmp(a, b)
  {
    if a != [] && b != [] && a[0] == b[0] {
      StrcmpSwap(a[1..], b[1..]);
    }
  }

  lemma {:induction false} LessTransitive(a: CString, b: CString, c: CString)
    requires Less(a, b) && Less(b, c)
    ensures Less(a, c)
  {
    if a != [] && b != [] && c != [] && a[0] == b[0] == c[0] {
      LessTransitive(a[1..], b[1..], c[1..]);
    }
  }

  /** The comparison is a total order on C strings. */
  lemma LessEqTotalOrder(a: CString, b: CString, c: CString)
    ensures LessEq(a, a)
    ensures LessEq(a, b) || LessEq(b, a)
    ensures LessEq(a, b) && LessEq(b, a) ==> a == b
    ensures LessEq(a, b) && LessEq(b, c) ==> LessEq(a, c)
    ensures Less(a, b) <==> !LessEq(b, a)
  {
    StrcmpSwap(a, b);
    if Less(a, b) && Less(b, c) {
      LessTransitive(a, b, c);
    }
  }

  lemma LessEqLessTransitive(a: CString, b: CString, c: CString)
    requires (LessEq(a, b) && Less(b, c)) || (Less(a, b) && LessEq(b, c))
    ensures Less(a, c)
  {
    if a != b && b != c {
      LessTransitive(a, b, c);
    }
  }

  /** A proper prefix compares smaller. */
  lemma {:induction false} PrefixIsLess(a: CString, b: CString)
    requires a < b
    ensures Less(a, b)
  {
    if a != [] {
      assert a[1..] < b[1..] by { assert a[1..] == b[1..|a|]; }
      PrefixIsLess(a[1..], b[1..]);
    }
  }

  /** strcmp orders strings exactly lexicographically. */
  lemma StrcmpIsLexicographic(a: CString, b: CString)
    ensures Less(a, b) <==> LexLess(a, b)
  {
    if Less(a, b) {
      StrcmpLessWitness(a, b);
    }
    if LexLess(a, b) {
      var k :| 0 <= k <= |a| && k <= |b| && a[..k] == b[..k] &&
        ((k == |a| && k < |b|) || (k < |a| && k < |b| && a[k] < b[k]));
      StrcmpAtFirstDifference(a, b, k);
    }
  }

  lemma {:induction false} StrcmpLessWitness(a: CString, b: CString)
    requires Less(a, b)
    ensures LexLess(a, b)
  {
    if a == [] {
      assert a[..0] == b[..0];
    } else if a[0] != b[0] {
      assert a[..0] == b[..0];
    } else {
      StrcmpLessWitness(a[1..], b[1..]);
      var k :| 0 <= k <= |a[1..]| && k <= |b[1..]| && a[1..][..k] == b[1..][..k] &&
        ((k == |a[1..]| && k < |b[1..]|) || (k < |a[1..]| && k < |b[1..]| && a[1..][k] < b[1..][k]));
      assert a[..k + 1] == [a[0]] + a[1..][..k];
      assert b[..k + 1] == [b[0]] + b[1..][..k];
    }
  }

  lemma {:induction false} StrcmpAtFirstDifference(a: CString, b: CString, k: nat)
    requires k <= |a| && k <= |b| && a[..k] == b[..k]
    requires (k == |a| && k < |b|) || (k < |a| && k < |b| && a[k] < b[k])
    ensures Less(a, b)
  {
    if k > 0 {
      assert a[0] == a[..k][0] == b[..k][0] == b[0];
      assert a[1..][..k - 1] == a[1..k] == a[..k][1..];
      assert b[1..][..k - 1] == b[1..k] == b[..k][1..];
      StrcmpAtFirstDifference(a[1..], b[1..], k - 1);
    }
  }

  /** The n bytes strncpy(dst, src, n) writes: src's bytes while they last, then NUL padding. */
  function StrncpyBytes(src: CString, n: nat): (r: seq<Byte>)
  {
    seq(n, i requires 0 <= i < n => if i < |src| then src[i] else 0)
  }

  /** The string a buffer holds when read as a C string: its bytes before the first NUL. */
  function StringIn(buf: seq<Byte>): (r: CString)
  {
    if buf == [] || buf[0] == 0 then [] else [buf[0]] + StringIn(buf[1..])
  }

  /** A buffer of size bufsize filled by strncpy of bufsize - 1 bytes and a final NUL reads
      back as the value cut to bufsize - 1 bytes; the whole value when it fits. */
  lemma {:induction false} BufferHoldsTruncatedValue(v: CString, bufsize: nat)
    requires bufsize > 0
    ensures var image := StrncpyBytes(v, bufsize - 1) + [0];
      |image| == bufsize && image[bufsize - 1] == 0 &&
      StringIn(image) == v[..if |v| < bufsize then |v| else bufsize - 1] &&
      (|v| < bufsize ==> StringIn(image) == v)
  {
    var image := StrncpyBytes(v, bufsize - 1) + [0];
    if v == [] || bufsize == 1 {
      assert image[0] == 0;
    } else {
      BufferHoldsTruncatedValue(v[1..], bufsize - 1);
      assert image[1..] == StrncpyBytes(v[1..], bufsize - 2) + [0];
      assert image[0] == v[0] != 0;
    }
  }

  /** strncpy(dst, src, n): writes exactly the first n bytes of dst. */
  method Strncpy(dst: array<Byte>, src: CString, n: nat)
    requires n <= dst.Length
    modifies dst
    ensures dst[..n] == StrncpyBytes(src, n)
    ensures dst[n..] == old(dst[n..])
  {
    for i := 0 to n
      invariant forall j | 0 <= j < i :: dst[j] == if j < |src| then src[j] else 0
      invariant dst[n..] == old(dst[n..])
    {
      dst[i] := if i < |src| then src[i] else 0;
    }
  }
}
