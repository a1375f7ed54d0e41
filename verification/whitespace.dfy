/** Go's notion of white space (unicode.IsSpace) and strings.TrimSpace, which
    createCarEntry uses to decide whether a chassis number is blank. */
module Whitespace {

  /** The Unicode White_Space property as Go's unicode.IsSpace tests it. */
  predicate IsSpace(c: char) {
    var u := c as int;
    || 0x09 <= u <= 0x0D || u == 0x20 || u == 0x85 || u == 0xA0
    || u == 0x1680 || 0x2000 <= u <= 0x200A || u == 0x2028 || u == 0x2029
    || u == 0x202F || u == 0x205F || u == 0x3000
  }

  predicate AllSpace(s: string) {
    forall i :: 0 <= i < |s| ==> IsSpace(s[i])
  }

  function TrimLeft(s: string): string {
    if s != [] && IsSpace(s[0]) then TrimLeft(s[1..]) else s
  }

  function TrimRight(s: string): string {
    if s != [] && IsSpace(s[|s| - 1]) then TrimRight(s[..|s| - 1]) else s
  }

  /** strings.TrimSpace: drop leading and trailing white space. */
  function TrimSpace(s: string): string {
    TrimRight(TrimLeft(s))
  }

  lemma {:induction false} TrimLeftIsSuffix(s: string)
    ensures var r := TrimLeft(s);
      |r| <= |s| && r == s[|s| - |r|..] && AllSpace(s[..|s| - |r|]) && (r == [] || !IsSpace(r[0]))
  {
    if s != [] && IsSpace(s[0]) {
      TrimLeftIsSuffix(s[1..]);
      var r := TrimLeft(s[1..]);
      assert s[1..][|s| - 1 - |r|..] == s[|s| - |r|..];
      assert forall i :: 0 <= i < |s| - |r| ==> i == 0 || s[i] == s[1..][..|s| - 1 - |r|][i - 1];
    }
  }

  lemma {:induction false} TrimRightIsPrefix(s: string)
    ensures var r := TrimRight(s);
      |r| <= |s| && r == s[..|r|] && AllSpace(s[|r|..]) && (r == [] || !IsSpace(r[|r| - 1]))
  {
    if s != [] && IsSpace(s[|s| - 1]) {
      var t := s[..|s| - 1];
      TrimRightIsPrefix(t);
      var r := TrimRight(t);
      assert t[..|r|] == s[..|r|];
      assert forall i :: |r| <= i < |s| ==> i == |s| - 1 || s[i] == t[|r|..][i - |r|];
    }
  }

  /** TrimSpace keeps the infix of s left after removing a white-space prefix
      and a white-space suffix, and that infix neither starts nor ends with
      white space. */
  lemma TrimSpaceIsInfix(s: string)
    ensures var r := TrimSpace(s);
      exists i, j :: 0 <= i <= j <= |s| && r == s[i..j] && AllSpace(s[..i]) && AllSpace(s[j..])
    ensures var r := TrimSpace(s); r == [] || (!IsSpace(r[0]) && !IsSpace(r[|r| - 1]))
  {
    TrimLeftIsSuffix(s);
    var l := TrimLeft(s);
    TrimRightIsPrefix(l);
    var r := TrimRight(l);
    var i := |s| - |l|;
    var j := i + |r|;
    assert r == s[i..j];
    assert s[j..] == l[|r|..];
  }

  /** A string trims to empty exactly when every character is white space. */
  lemma TrimSpaceEmptyIff(s: string)
    ensures TrimSpace(s) == [] <==> AllSpace(s)
  {
    TrimLeftIsSuffix(s);
    TrimRightIsPrefix(TrimLeft(s));
    if AllSpace(s) {
      AllSpaceTrimsLeft(s);
    }
  }

  lemma {:induction false} AllSpaceTrimsLeft(s: string)
    requires AllSpace(s)
    ensures TrimLeft(s) == []
  {
    if s != [] {
      AllSpaceTrimsLeft(s[1..]);
    }
  }
}
