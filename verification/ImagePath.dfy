/** The loop in load_image that protects runs of spaces from word expansion, main.c. */
module ImagePath {
  /** A backslash between every two adjacent spaces, in one pass. */
  function Escaped(s: string): string {
    if |s| < 2 then s
    else if s[0] == ' ' && s[1] == ' ' then " \\" + Escaped(s[1..])
    else [s[0]] + Escaped(s[1..])
  }

  /** Adjacent pairs of spaces. */
  function Pairs(s: string): nat {
    if |s| < 2 then 0 else Pairs(s[1..]) + (if s[0] == ' ' && s[1] == ' ' then 1 else 0)
  }

  ghost predicate PairAt(s: string, i: nat) {
    i + 1 < |s| && s[i] == ' ' && s[i + 1] == ' '
  }

  /** strstr(s, "  ") */
  method FindPair(s: string) returns (found: bool, i: nat)
    ensures found ==> PairAt(s, i) && forall j | 0 <= j < i :: !PairAt(s, j)
    ensures !found ==> forall j: nat :: !PairAt(s, j)
  {
    i := 0;
    while i + 1 < |s|
      invariant forall j | 0 <= j < i :: !PairAt(s, j)
    {
      if s[i] == ' ' && s[i + 1] == ' ' {
        return true, i;
      }
      i := i + 1;
    }
    found := false;
  }

  /** One round of the loop: the backslash goes between the two spaces of the first pair. */
  function Insert(s: string, i: nat): string
    requires i + 1 < |s|
  {
    s[..i + 1] + "\\" + s[i + 1..]
  }

  lemma {:induction false} InsertKeepsEscaped(s: string, i: nat)
    requires PairAt(s, i) && forall j | 0 <= j < i :: !PairAt(s, j)
    ensures Escaped(Insert(s, i)) == Escaped(s)
    ensures Pairs(Insert(s, i)) == Pairs(s) - 1
  {
    var t := Insert(s, i);
    if i == 0 {
      assert t == " \\" + s[1..];
      assert t[1..] == "\\" + s[1..] && t[1..][1..] == s[1..];
      assert Escaped(t[1..]) == "\\" + Escaped(s[1..]);
      assert " " + ("\\" + Escaped(s[1..])) == " \\" + Escaped(s[1..]);
    } else {
      assert !PairAt(s, 0);
      forall j | 0 <= j < i - 1 ensures !PairAt(s[1..], j) {
        assert !PairAt(s, j + 1);
      }
      InsertKeepsEscaped(s[1..], i - 1);
      assert t[1..] == Insert(s[1..], i - 1);
      assert t[0] == s[0] && t[1] == s[1];
    }
  }

  lemma {:induction false} NoPairsNoChange(s: string)
    requires forall j: nat :: !PairAt(s, j)
    ensures Escaped(s) == s && Pairs(s) == 0
  {
    if |s| >= 2 {
      assert !PairAt(s, 0);
      forall j: nat ensures !PairAt(s[1..], j) {
        assert !PairAt(s, j + 1);
      }
      NoPairsNoChange(s[1..]);
    }
  }

  /** The loop ends, because each round leaves one pair fewer, and gives the one-pass result. */
  method EscapeSpaces(path: string) returns (s: string)
    ensures s == Escaped(path)
  {
    s := path;
    var found, i := FindPair(s);
    while found
      invariant Escaped(s) == Escaped(path)
      invariant found ==> PairAt(s, i) && forall j | 0 <= j < i :: !PairAt(s, j)
      invariant !found ==> forall j: nat :: !PairAt(s, j)
      decreases Pairs(s), found
    {
      InsertKeepsEscaped(s, i);
      s := Insert(s, i);
      found, i := FindPair(s);
    }
    NoPairsNoChange(s);
  }

  /** No two adjacent spaces are left, so nothing is escaped twice. */
  lemma {:induction false} EscapedHasNoPairs(s: string)
    ensures forall j: nat :: !PairAt(Escaped(s), j)
    ensures s != "" ==> Escaped(s) != "" && Escaped(s)[0] == s[0]
  {
    if |s| >= 2 {
      EscapedHasNoPairs(s[1..]);
      var t, rest := Escaped(s), Escaped(s[1..]);
      forall j: nat ensures !PairAt(t, j) {
        if s[0] == ' ' && s[1] == ' ' {
          assert j >= 2 ==> (PairAt(t, j) <==> PairAt(rest, j - 2));
        } else {
          assert j >= 1 ==> (PairAt(t, j) <==> PairAt(rest, j - 1));
        }
      }
    }
  }

  /** Drops the backslash wherever it stands between two spaces. */
  function Unescaped(s: string): string {
    if |s| < 3 then s
    else if EscapeAt(s, 0) then " " + Unescaped(s[2..])
    else [s[0]] + Unescaped(s[1..])
  }

  predicate EscapeAt(s: string, j: nat) {
    j + 2 < |s| && s[j] == ' ' && s[j + 1] == '\\' && s[j + 2] == ' '
  }

  ghost predicate NoEscapes(s: string) {
    forall j: nat :: !EscapeAt(s, j)
  }

  lemma NoEscapesTail(s: string)
    requires s != ""
    ensures NoEscapes(s) <==> !EscapeAt(s, 0) && NoEscapes(s[1..])
  {
    assert forall j: nat :: EscapeAt(s[1..], j) <==> EscapeAt(s, j + 1);
    if !EscapeAt(s, 0) && NoEscapes(s[1..]) {
      forall j: nat ensures !EscapeAt(s, j) {
        assert j > 0 ==> (EscapeAt(s, j) <==> EscapeAt(s[1..], j - 1));
      }
    }
  }

  /** Dropping the inserted backslashes gives the path back if and only if it had none of its own between two
      spaces. */
  lemma {:induction false} UnescapedEscaped(s: string)
    ensures |Unescaped(Escaped(s))| <= |s|
    ensures Unescaped(Escaped(s)) == s <==> NoEscapes(s)
  {
    if |s| >= 2 {
      var t, rest := Escaped(s), Escaped(s[1..]);
      UnescapedEscaped(s[1..]);
      EscapedHasNoPairs(s[1..]);
      NoEscapesTail(s);
      if EscapeAt(s, 0) {
        UnescapedEscaped(s[2..]);
        EscapedHasNoPairs(s[2..]);
        assert s[1..][1..] == s[2..];
        assert t[2..] == Escaped(s[2..]) && EscapeAt(t, 0);
      } else if s[0] == ' ' && s[1] == ' ' {
        assert t[2..] == rest && t[2] == ' ';
      } else {
        assert t[1..] == rest;
        SecondKept(s[1..]);
      }
    }
  }

  lemma SecondKept(s: string)
    requires s != ""
    ensures |Escaped(s)| >= 2 && s[0] != ' ' ==> |s| >= 2 && Escaped(s)[1] == s[1]
  {
    if |s| >= 2 {
      EscapedHasNoPairs(s[1..]);
    }
  }
}
