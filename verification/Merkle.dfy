/**
The Merkle root of a sealed segment.  The hash is any function with 32-byte results:
binding is proved by computing a collision, not by assuming there is none.
 */
module Merkle {
  import opened Wrappers

  type Bytes = seq<byte>

  const SIZE := 32

  ghost predicate HashFunction(h: Bytes -> Bytes) {
    forall x :: |h(x)| == SIZE
  }

  predicate Digests(level: seq<Bytes>) {
    forall i :: 0 <= i < |level| ==> |level[i]| == SIZE
  }

  // ---------------------------------------------------------------- hexadecimal leaves

  function DigitValue(c: char): (v: int)
    ensures -1 <= v < 16
  {
    if '0' <= c <= '9' then c as int - '0' as int
    else if 'a' <= c <= 'f' then c as int - 'a' as int + 10
    else if 'A' <= c <= 'F' then c as int - 'A' as int + 10
    else -1
  }

  function Digit(v: int): (c: char)
    requires 0 <= v < 16
    ensures DigitValue(c) == v
  {
    if v < 10 then ('0' as int + v) as char else ('a' as int + v - 10) as char
  }

  function HexEncode(data: Bytes): (text: string)
    ensures |text| == 2 * |data|
  {
    if data == [] then [] else [Digit(data[0] / 16), Digit(data[0] % 16)] + HexEncode(data[1..])
  }

  function HexDecode(text: string): (r: Option<Bytes>)
    ensures r.Some? ==> |text| == 2 * |r.value|
  {
    if text == [] then Some([])
    else if |text| == 1 || DigitValue(text[0]) < 0 || DigitValue(text[1]) < 0 then None
    else match HexDecode(text[2..])
      case None => None
      case Some(rest) => Some([DigitValue(text[0]) * 16 + DigitValue(text[1])] + rest)
  }

  /** The lower-case spelling of a text of hexadecimal digits. */
  function Canonical(text: string): (lower: string)
    ensures |lower| == |text|
  {
    seq(|text|, i requires 0 <= i < |text| => if DigitValue(text[i]) >= 0 then Digit(DigitValue(text[i])) else text[i])
  }

  /** Decoding forgets the case of the digits and nothing else. */
  lemma {:induction false} EncodeDecoded(text: string)
    requires HexDecode(text).Some?
    ensures HexEncode(HexDecode(text).value) == Canonical(text)
  {
    if text != [] {
      var hi, lo, rest := DigitValue(text[0]), DigitValue(text[1]), HexDecode(text[2..]).value;
      EncodeDecoded(text[2..]);
      EncodePair(hi, lo, rest);
      CanonicalPair(text);
    }
  }

  lemma EncodePair(hi: int, lo: int, rest: Bytes)
    requires 0 <= hi < 16 && 0 <= lo < 16
    ensures HexEncode([hi * 16 + lo] + rest) == [Digit(hi), Digit(lo)] + HexEncode(rest)
  {
    var data: Bytes := [hi * 16 + lo] + rest;
    assert data[0] / 16 == hi && data[0] % 16 == lo && data[1..] == rest;
  }

  lemma CanonicalPair(text: string)
    requires |text| >= 2 && DigitValue(text[0]) >= 0 && DigitValue(text[1]) >= 0
    ensures Canonical(text) == [Digit(DigitValue(text[0])), Digit(DigitValue(text[1]))] + Canonical(text[2..])
  {
  }

  lemma {:induction false} CanonicalDecodesAlike(text: string)
    ensures HexDecode(Canonical(text)) == HexDecode(text)
  {
    if |text| >= 2 {
      CanonicalDecodesAlike(text[2..]);
      assert Canonical(text)[2..] == Canonical(text[2..]);
    }
  }

  lemma {:induction false} DecodeEncoded(data: Bytes)
    ensures HexDecode(HexEncode(data)) == Some(data)
  {
    if data != [] {
      DecodeEncoded(data[1..]);
      var text := HexEncode(data);
      assert text[2..] == HexEncode(data[1..]);
      assert DigitValue(text[0]) == data[0] / 16 && DigitValue(text[1]) == data[0] % 16;
      assert data == [data[0]] + data[1..];
    }
  }

  /** The printed form is in lower case, two digits a byte, the high one first. */
  lemma {:induction false} PrintedDigits(data: Bytes, i: nat)
    requires i < |data|
    ensures var hi, lo := HexEncode(data)[2 * i], HexEncode(data)[2 * i + 1];
            && ('0' <= hi <= '9' || 'a' <= hi <= 'f') && ('0' <= lo <= '9' || 'a' <= lo <= 'f')
            && data[i] == 16 * DigitValue(hi) + DigitValue(lo)
  {
    if i > 0 {
      PrintedDigits(data[1..], i - 1);
      assert HexEncode(data)[2..] == HexEncode(data[1..]);
    }
  }

  // ---------------------------------------------------------------- the tree

  /** The bytes hashed into node `i` of the level above: two neighbours, or an odd last one twice. */
  function Material(level: seq<Bytes>, i: nat): (m: Bytes)
    requires 2 * i < |level|
  {
    level[2 * i] + (if 2 * i + 1 < |level| then level[2 * i + 1] else level[2 * i])
  }

  function Above(h: Bytes -> Bytes, level: seq<Bytes>): (next: seq<Bytes>)
    ensures |next| == (|level| + 1) / 2
    ensures forall i :: 0 <= i < |next| ==> next[i] == h(Material(level, i))
  {
    seq((|level| + 1) / 2, i requires 0 <= i < (|level| + 1) / 2 => h(Material(level, i)))
  }

  function Root(h: Bytes -> Bytes, level: seq<Bytes>): (root: Bytes)
    requires level != []
    decreases |level|
  {
    if |level| == 1 then level[0] else Root(h, Above(h, level))
  }

  /** What a list of leaves decodes to, when each one is a 32-byte hash in hexadecimal. */
  function Decoded(leaves: seq<string>): (r: Option<seq<Bytes>>)
    ensures r.Some? ==> |r.value| == |leaves| && Digests(r.value)
    ensures r.Some? <==> forall i :: 0 <= i < |leaves| ==> HexDecode(leaves[i]).Some? && |leaves[i]| == 2 * SIZE
    ensures r.Some? ==> forall i :: 0 <= i < |leaves| ==> r.value[i] == HexDecode(leaves[i]).value
  {
    if forall i :: 0 <= i < |leaves| ==> HexDecode(leaves[i]).Some? && |leaves[i]| == 2 * SIZE
    then Some(seq(|leaves|, i requires 0 <= i < |leaves| && HexDecode(leaves[i]).Some? => HexDecode(leaves[i]).value))
    else None
  }

  method MerkleRoot(h: Bytes -> Bytes, leaves: seq<string>) returns (r: Result<string>)
    ensures r.Ok? <==> leaves != [] && Decoded(leaves).Some?
    ensures r.Ok? ==> r.value == HexEncode(Root(h, Decoded(leaves).value))
  {
    if |leaves| == 0 { return Err("cannot build Merkle root for zero leaves"); }
    var level: seq<Bytes> := [];
    for i := 0 to |leaves|
      invariant |level| == i
      invariant forall j :: 0 <= j < i ==> HexDecode(leaves[j]) == Some(level[j]) && |leaves[j]| == 2 * SIZE
    {
      var decoded := HexDecode(leaves[i]);
      if decoded.None? || |decoded.value| != SIZE { return Err("Merkle leaf is not a SHA-256 hash"); }
      level := level + [decoded.value];
    }
    assert level == Decoded(leaves).value;
    while |level| > 1
      invariant level != [] && Root(h, level) == Root(h, Decoded(leaves).value)
      decreases |level|
    {
      var next: seq<Bytes> := [];
      var index := 0;
      while index < |level|
        invariant index == 2 * |next| && |next| <= |Above(h, level)|
        invariant next == Above(h, level)[..|next|]
      {
        var left := level[index];
        var right := left;
        if index + 1 < |level| {
          right := level[index + 1];
        }
        next := next + [h(left + right)];
        index := index + 2;
      }
      assert next == Above(h, level);
      level := next;
    }
    return Ok(HexEncode(level[0]));
  }

  // ---------------------------------------------------------------- binding

  /** Two different 64-byte inputs with one hash. */
  predicate Collision(h: Bytes -> Bytes, x: Bytes, y: Bytes) {
    x != y && |x| == |y| == 2 * SIZE && h(x) == h(y)
  }

  /** Levels that differ but hash to the same level above give a collision at any differing place. */
  lemma DifferingPair(h: Bytes -> Bytes, a: seq<Bytes>, b: seq<Bytes>, j: nat)
    requires Digests(a) && Digests(b) && |a| == |b| && j < |a| && a[j] != b[j]
    requires Above(h, a) == Above(h, b)
    ensures Collision(h, Material(a, j / 2), Material(b, j / 2))
  {
    var i := j / 2;
    assert Above(h, a)[i] == Above(h, b)[i];
    var x, y := Material(a, i), Material(b, i);
    assert x[..SIZE] == a[2 * i] && y[..SIZE] == b[2 * i];
    if j == 2 * i + 1 {
      assert x[SIZE..] == a[j] && y[SIZE..] == b[j];
    }
  }

  /** The `n`-th level above a list of digests. */
  function LevelAt(h: Bytes -> Bytes, level: seq<Bytes>, n: nat): seq<Bytes>
    decreases n
  {
    if n == 0 then level else LevelAt(h, Above(h, level), n - 1)
  }

  lemma {:induction false} LevelNext(h: Bytes -> Bytes, level: seq<Bytes>, n: nat)
    ensures LevelAt(h, level, n + 1) == Above(h, LevelAt(h, level, n))
    decreases n
  {
    if n > 0 {
      LevelNext(h, Above(h, level), n - 1);
    }
  }

  /** The two trees hash the different inputs `x` and `y` into the same node: number `i` of level `n + 1`. */
  ghost predicate CollideAt(h: Bytes -> Bytes, a: seq<Bytes>, b: seq<Bytes>, n: nat, i: nat, x: Bytes, y: Bytes) {
    var p, q := LevelAt(h, a, n), LevelAt(h, b, n);
    && |p| == |q| > 1 && 2 * i < |p|
    && x == Material(p, i) && y == Material(q, i) && Collision(h, x, y)
  }

  lemma OneDigestIsRoot(h: Bytes -> Bytes, p: seq<Bytes>, q: seq<Bytes>)
    requires |p| == |q| > 0 && p != q && Root(h, p) == Root(h, q)
    ensures |p| > 1
  {
    var i :| 0 <= i < |p| && p[i] != q[i];
  }

  /** From two different leaf lists of one length and one root, computes a collision between their trees. */
  method FindCollision(h: Bytes -> Bytes, a: seq<Bytes>, b: seq<Bytes>) returns (x: Bytes, y: Bytes, ghost n: nat, ghost i: nat)
    requires HashFunction(h) && Digests(a) && Digests(b)
    requires a != b && |a| == |b| > 0 && Root(h, a) == Root(h, b)
    ensures CollideAt(h, a, b, n, i, x, y)
  {
    var p, q := a, b;
    n := 0;
    OneDigestIsRoot(h, p, q);
    while Above(h, p) != Above(h, q)
      invariant Digests(p) && Digests(q) && p != q && |p| == |q| > 1 && Root(h, p) == Root(h, q)
      invariant p == LevelAt(h, a, n) && q == LevelAt(h, b, n)
      decreases |p|
    {
      LevelNext(h, a, n);
      LevelNext(h, b, n);
      p, q, n := Above(h, p), Above(h, q), n + 1;
      OneDigestIsRoot(h, p, q);
    }
    var j := FirstDifference(p, q);
    DifferingPair(h, p, q, j);
    x, y, i := Material(p, j / 2), Material(q, j / 2), j / 2;
  }

  method FirstDifference(p: seq<Bytes>, q: seq<Bytes>) returns (j: nat)
    requires |p| == |q| && p != q
    ensures j < |p| && p[j] != q[j] && p[..j] == q[..j]
  {
    assert p[..|p|] == p && q[..|q|] == q;
    j := 0;
    while p[j] == q[j]
      invariant j < |p| && p[..j] == q[..j]
      decreases |p| - j
    {
      assert p[..j + 1] == q[..j + 1];
      j := j + 1;
    }
  }

  lemma CollideHere(h: Bytes -> Bytes, a: seq<Bytes>, b: seq<Bytes>) returns (i: nat, x: Bytes, y: Bytes)
    requires Digests(a) && Digests(b) && |a| == |b| > 1 && a != b && Above(h, a) == Above(h, b)
    ensures CollideAt(h, a, b, 0, i, x, y)
  {
    var j :| 0 <= j < |a| && a[j] != b[j];
    DifferingPair(h, a, b, j);
    i, x, y := j / 2, Material(a, j / 2), Material(b, j / 2);
  }

  lemma CollideAbove(h: Bytes -> Bytes, a: seq<Bytes>, b: seq<Bytes>, n: nat, i: nat, x: Bytes, y: Bytes)
    requires CollideAt(h, Above(h, a), Above(h, b), n, i, x, y)
    ensures CollideAt(h, a, b, n + 1, i, x, y)
  {
    assert LevelAt(h, a, n + 1) == LevelAt(h, Above(h, a), n) && LevelAt(h, b, n + 1) == LevelAt(h, Above(h, b), n);
  }

  /** Root and record count bind the ordered list of digests: either the lists agree or their trees collide. */
  lemma {:induction false} RootBinds(h: Bytes -> Bytes, a: seq<Bytes>, b: seq<Bytes>) returns (n: nat, i: nat, x: Bytes, y: Bytes)
    requires HashFunction(h) && Digests(a) && Digests(b) && |a| == |b| > 0
    ensures Root(h, a) == Root(h, b) ==> a == b || CollideAt(h, a, b, n, i, x, y)
    decreases |a|
  {
    n, i, x, y := 0, 0, [], [];
    if a != b && Root(h, a) == Root(h, b) {
      OneDigestIsRoot(h, a, b);
      if Above(h, a) == Above(h, b) {
        i, x, y := CollideHere(h, a, b);
      } else {
        n, i, x, y := RootBinds(h, Above(h, a), Above(h, b));
        CollideAbove(h, a, b, n, i, x, y);
        n := n + 1;
      }
    }
  }

  // ---------------------------------------------------------------- the number of leaves

  /** The digest is the hash of two digests, as every inner node is. */
  ghost predicate IsNode(h: Bytes -> Bytes, digest: Bytes) {
    exists l, r :: Pair(l, r) && h(l + r) == digest
  }

  predicate Pair(l: Bytes, r: Bytes) { |l| == |r| == SIZE }

  /** Every list of digests with the same root has the same length. */
  ghost predicate CountFixed(h: Bytes -> Bytes, a: seq<Bytes>) {
    forall b :: b != [] && Digests(b) && SameRoot(h, a, b) ==> |b| == |a|
  }

  ghost predicate SameRoot(h: Bytes -> Bytes, a: seq<Bytes>, b: seq<Bytes>) {
    a != [] && b != [] && Root(h, a) == Root(h, b)
  }

  /** Leaves and inner nodes are hashed alike, so every higher level of a tree is a shorter list with the same root. */
  lemma {:induction false} LevelSharesRoot(h: Bytes -> Bytes, a: seq<Bytes>, n: nat)
    requires HashFunction(h) && Digests(a) && a != [] && forall m: nat :: m < n ==> |LevelAt(h, a, m)| > 1
    ensures var level := LevelAt(h, a, n);
            && Digests(level) && level != [] && Root(h, level) == Root(h, a)
            && (n > 0 ==> |level| < |a|)
  {
    if n > 0 {
      assert |LevelAt(h, a, n - 1)| > 1;
      LevelSharesRoot(h, a, n - 1);
      LevelNext(h, a, n - 1);
    }
  }

  lemma {:induction false} LongRootIsNode(h: Bytes -> Bytes, a: seq<Bytes>)
    requires HashFunction(h) && Digests(a) && |a| > 1
    ensures IsNode(h, Root(h, a))
    decreases |a|
  {
    if |a| == 2 {
      assert Pair(a[0], a[1]) && a == [a[0], a[1]];
      PairRoot(h, a[0], a[1]);
    } else {
      LongRootIsNode(h, Above(h, a));
    }
  }

  /** The root fixes the number of leaves exactly for a single leaf that is not itself the hash of two digests. */
  lemma CountFixedIff(h: Bytes -> Bytes, a: seq<Bytes>)
    requires HashFunction(h) && Digests(a) && a != []
    ensures CountFixed(h, a) <==> |a| == 1 && !IsNode(h, a[0])
  {
    if |a| > 1 {
      assert LevelAt(h, a, 0) == a;
      LevelSharesRoot(h, a, 1);
      assert SameRoot(h, a, LevelAt(h, a, 1));
    } else if IsNode(h, a[0]) {
      var l, r :| Pair(l, r) && h(l + r) == a[0];
      PairRoot(h, l, r);
      assert Digests([l, r]) && SameRoot(h, a, [l, r]);
    } else {
      forall b | b != [] && Digests(b) && SameRoot(h, a, b)
        ensures |b| == 1
      {
        if |b| > 1 {
          LongRootIsNode(h, b);
        }
      }
    }
  }

  lemma PairRoot(h: Bytes -> Bytes, l: Bytes, r: Bytes)
    ensures Root(h, [l, r]) == h(l + r)
  {
    assert Above(h, [l, r])[0] == h(Material([l, r], 0)) && |Above(h, [l, r])| == 1;
  }

  /** One instance: repeating an odd last leaf leaves the root as it is. */
  lemma OddTailRepeats(h: Bytes -> Bytes, level: seq<Bytes>)
    requires |level| > 1 && |level| % 2 == 1
    ensures Root(h, level + [level[|level| - 1]]) == Root(h, level)
  {
    OddTailAbove(h, level);
  }

  lemma OddTailAbove(h: Bytes -> Bytes, level: seq<Bytes>)
    requires |level| > 1 && |level| % 2 == 1
    ensures Above(h, level + [level[|level| - 1]]) == Above(h, level)
  {
    var longer := level + [level[|level| - 1]];
    var up, longerUp := Above(h, level), Above(h, longer);
    forall i | 0 <= i < |up|
      ensures longerUp[i] == up[i]
    {
      assert longerUp[i] == h(Material(longer, i)) && up[i] == h(Material(level, i));
    }
  }

  /**
  The same for the hexadecimal leaves `MerkleRoot` is given: two accepted lists of one
  length that agree up to the case of their digits have the same root, and two that do not
  have different roots or trees that collide.
   */
  lemma RootBindsLeaves(h: Bytes -> Bytes, a: seq<string>, b: seq<string>) returns (n: nat, i: nat, x: Bytes, y: Bytes)
    requires HashFunction(h) && |a| == |b| > 0 && Decoded(a).Some? && Decoded(b).Some?
    ensures var rootA, rootB := HexEncode(Root(h, Decoded(a).value)), HexEncode(Root(h, Decoded(b).value));
            var alike := forall i :: 0 <= i < |a| ==> Canonical(a[i]) == Canonical(b[i]);
            && (alike ==> rootA == rootB)
            && (rootA == rootB ==> alike || CollideAt(h, Decoded(a).value, Decoded(b).value, n, i, x, y))
  {
    var p, q := Decoded(a).value, Decoded(b).value;
    AlikeDecode(a, b);
    if HexEncode(Root(h, p)) == HexEncode(Root(h, q)) {
      DecodeEncoded(Root(h, p));
      DecodeEncoded(Root(h, q));
      n, i, x, y := RootBinds(h, p, q);
    } else {
      n, i, x, y := 0, 0, [], [];
    }
  }

  lemma AlikeDecode(a: seq<string>, b: seq<string>)
    requires |a| == |b| && Decoded(a).Some? && Decoded(b).Some?
    ensures Decoded(a) == Decoded(b) <==> forall i :: 0 <= i < |a| ==> Canonical(a[i]) == Canonical(b[i])
  {
    var p, q := Decoded(a).value, Decoded(b).value;
    forall i | 0 <= i < |a|
      ensures p[i] == q[i] <==> Canonical(a[i]) == Canonical(b[i])
    {
      EncodeDecoded(a[i]);
      EncodeDecoded(b[i]);
      CanonicalDecodesAlike(a[i]);
      CanonicalDecodesAlike(b[i]);
    }
    if forall i :: 0 <= i < |a| ==> Canonical(a[i]) == Canonical(b[i]) {
      assert p == q;
    }
  }

  lemma {:induction false} DigitsDecode(text: string)
    requires |text| % 2 == 0 && forall i :: 0 <= i < |text| ==> DigitValue(text[i]) >= 0
    ensures HexDecode(text).Some?
  {
    if text != [] {
      DigitsDecode(text[2..]);
    }
  }

  /** Two spellings of one leaf, and so of one root. */
  lemma CaseSharesRoot(h: Bytes -> Bytes) returns (a: seq<string>, b: seq<string>)
    requires HashFunction(h)
    ensures a != b && |a| == |b| == 1 && Decoded(a).Some? && Decoded(b).Some?
    ensures Root(h, Decoded(a).value) == Root(h, Decoded(b).value)
  {
    var lower, upper := seq(2 * SIZE, _ => 'a'), seq(2 * SIZE, _ => 'A');
    assert lower[0] != upper[0];
    a, b := [lower], [upper];
    assert a[0] != b[0];
    DigitsDecode(lower);
    DigitsDecode(upper);
    AlikeDecode(a, b);
    assert Canonical(lower) == Canonical(upper);
  }
}
