/** White space as the source's `strings.TrimSpace` sees it. */
module Text {

  predicate IsSpace(c: char) {
    var u := c as int;
    || 0x09 <= u <= 0x0D || u == 0x20 || u == 0x85 || u == 0xA0 || u == 0x1680
    || 0x2000 <= u <= 0x200A || u == 0x2028 || u == 0x2029 || u == 0x202F || u == 0x205F || u == 0x3000
  }

  /** True when nothing is left after trimming. */
  predicate Blank(s: string) {
    forall i :: 0 <= i < |s| ==> IsSpace(s[i])
  }

  function TrimLeft(s: string): (t: string)
    ensures |t| <= |s|
    ensures t == "" || !IsSpace(t[0])
    ensures Blank(s) <==> t == ""
    ensures s == "" || !IsSpace(s[0]) ==> t == s
  {
    if s != "" && IsSpace(s[0]) then
      assert Blank(s) <==> Blank(s[1..]) by { assert s == [s[0]] + s[1..]; }
      TrimLeft(s[1..])
    else s
  }

  function TrimRight(s: string): (t: string)
    ensures |t| <= |s|
    ensures t == "" || !IsSpace(t[|t| - 1])
    ensures Blank(s) <==> t == ""
    ensures t == s[..|t|]
    ensures s == "" || !IsSpace(s[|s| - 1]) ==> t == s
  {
    if s != "" && IsSpace(s[|s| - 1]) then
      assert Blank(s) <==> Blank(s[..|s| - 1]) by { assert s == s[..|s| - 1] + [s[|s| - 1]]; }
      TrimRight(s[..|s| - 1])
    else s
  }

  function Trim(s: string): (t: string)
    ensures Blank(s) <==> t == ""
    ensures t != "" ==> !IsSpace(t[0]) && !IsSpace(t[|t| - 1])
  {
    var left := TrimLeft(s);
    var t := TrimRight(left);
    assert t != "" ==> t[0] == left[0];
    t
  }

  /** Trimming cuts off the space at both ends and nothing else. */
  lemma TrimMeaning(s: string) returns (from: nat, to: nat)
    ensures from <= to <= |s| && Trim(s) == s[from..to] && Blank(s[..from]) && Blank(s[to..])
  {
    from := LeftCut(s);
    var left := TrimLeft(s);
    var length := RightCut(left);
    to := from + length;
    assert s[to..] == left[length..];
  }

  lemma {:induction false} LeftCut(s: string) returns (from: nat)
    ensures from <= |s| && TrimLeft(s) == s[from..] && Blank(s[..from])
  {
    if s != "" && IsSpace(s[0]) {
      var rest := LeftCut(s[1..]);
      from := rest + 1;
      assert s[..from] == [s[0]] + s[1..][..rest];
    } else {
      from := 0;
    }
  }

  lemma {:induction false} RightCut(s: string) returns (length: nat)
    ensures length <= |s| && TrimRight(s) == s[..length] && Blank(s[length..])
  {
    if s != "" && IsSpace(s[|s| - 1]) {
      length := RightCut(s[..|s| - 1]);
      assert s[length..] == s[..|s| - 1][length..] + [s[|s| - 1]];
    } else {
      length := |s|;
    }
  }

  lemma TrimIdempotent(s: string)
    ensures Trim(Trim(s)) == Trim(s)
  {
    var t := Trim(s);
    assert TrimLeft(t) == t;
  }
}
