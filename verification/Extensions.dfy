/** The PAM extension list of the GDM header: one macro prints it into an environment block, two parse it. */
module Extensions {
  const HEADER := "GDM_SUPPORTED_PAM_EXTENSIONS"
  const UCHAR_MAX := 255

  const NUL: char := '\0'

  ghost predicate CText(s: string) {
    NUL !in s
  }

  // ----- printing -----

  /** Names separated by single spaces. */
  function Join(exts: seq<string>): string {
    if exts == [] then ""
    else if |exts| == 1 then exts[0]
    else Join(exts[..|exts| - 1]) + " " + exts[|exts| - 1]
  }

  /** The size accounting of the macro: each name costs one more than its length. */
  function Size(exts: seq<string>): nat {
    if exts == [] then |HEADER| else Size(exts[..|exts| - 1]) + |exts[|exts| - 1]| + 1
  }

  function Setting(exts: seq<string>): string {
    HEADER + "=" + Join(exts)
  }

  /** The accounting is exact: it is the length of the string that is built. */
  lemma {:induction false} SizeIsLength(exts: seq<string>)
    requires exts != []
    ensures Size(exts) == |Setting(exts)|
  {
    if |exts| == 1 {
      assert exts[..0] == [];
    } else {
      SizeIsLength(exts[..|exts| - 1]);
    }
  }

  lemma {:induction false} SizeGrows(exts: seq<string>, k: nat)
    requires k <= |exts|
    ensures Size(exts[..k]) <= Size(exts)
  {
    if k < |exts| {
      SizeGrows(exts[..|exts| - 1], k);
      assert exts[..|exts| - 1][..k] == exts[..k];
    } else {
      assert exts[..k] == exts;
    }
  }

  /** stpcpy: the text and its terminator at `p`; the result is where the terminator stands. */
  method Copy(block: array<char>, p: nat, text: string) returns (end: nat)
    requires p + |text| < block.Length
    modifies block
    ensures end == p + |text| && block[..end] == old(block[..p]) + text && block[end] == NUL
  {
    for i := 0 to |text|
      invariant block[p..p + i] == text[..i]
      invariant block[..p] == old(block[..p])
    {
      block[p + i] := text[i];
      assert block[p..p + i + 1] == block[p..p + i] + [text[i]];
    }
    end := p + |text|;
    block[end] := NUL;
    assert block[..end] == block[..p] + block[p..end];
  }

  /** How many names the macro takes: the longest run that leaves room for the terminator, at most 255. */
  ghost predicate Fits(exts: seq<string>, n: nat, capacity: nat) {
    && n <= |exts| && n <= 255
    && (n > 0 ==> Size(exts[..n]) < capacity)
    && (n < |exts| && n < 255 ==> Size(exts[..n + 1]) >= capacity)
  }

  method CountNames(exts: seq<string>, capacity: nat) returns (n: nat)
    ensures Fits(exts, n, capacity)
  {
    n := 0;
    var size := |HEADER|;
    while n < |exts| && n < UCHAR_MAX
      invariant n <= |exts| && n <= UCHAR_MAX && size == Size(exts[..n])
      invariant n > 0 ==> size < capacity
    {
      var next := |exts[n]| + 1;
      assert exts[..n + 1][..n] == exts[..n];
      if size + next >= capacity {
        break;
      }
      size, n := size + next, n + 1;
    }
  }

  /** GDM_PAM_EXTENSION_ADVERTISE_SUPPORTED_EXTENSIONS. The block holds the setting for the names that fit,
      terminated within its bounds; without a name nothing is put into the environment. */
  method Advertise(block: array<char>, exts: seq<string>) returns (put: bool, ghost n: nat)
    requires block.Length > |HEADER|
    modifies block
    ensures Fits(exts, n, block.Length) && put == (n > 0)
    ensures put ==> |Setting(exts[..n])| == Size(exts[..n]) < block.Length
    ensures put ==> block[..|Setting(exts[..n])|] == Setting(exts[..n]) && block[|Setting(exts[..n])|] == NUL
  {
    var p := Copy(block, 0, HEADER);
    var count := CountNames(exts, block.Length);
    n := count;
    put := count > 0;
    if put {
      SizeIsLength(exts[..count]);
      p := Copy(block, p, "=");
      p := PrintNames(block, p, exts, count);
    }
  }

  /** The second loop of the macro. */
  method PrintNames(block: array<char>, start: nat, exts: seq<string>, count: nat) returns (p: nat)
    requires 0 < count <= |exts| && Size(exts[..count]) < block.Length
    requires start == |HEADER| + 1 < block.Length
    modifies block
    ensures p == start + |Join(exts[..count])| < block.Length
    ensures block[..p] == old(block[..start]) + Join(exts[..count]) && block[p] == NUL
  {
    ghost var head := block[..start];
    p := start;
    for t := 0 to count
      invariant p == start + |Join(exts[..t])| && p < block.Length
      invariant block[..p] == head + Join(exts[..t])
      invariant t > 0 ==> block[p] == NUL
    {
      NextName(exts, count, t, block.Length);
      if t != 0 {
        p := Copy(block, p, " ");
      }
      p := Copy(block, p, exts[t]);
    }
  }

  /** Adding one name to a joined list, with room to spare. */
  lemma NextName(exts: seq<string>, count: nat, t: nat, capacity: nat)
    requires t < count <= |exts| && Size(exts[..count]) < capacity
    ensures Join(exts[..t + 1]) == (if t == 0 then "" else Join(exts[..t]) + " ") + exts[t]
    ensures |HEADER| + 1 + |Join(exts[..t + 1])| < capacity
  {
    assert exts[..t + 1][..t] == exts[..t] && exts[..t + 1][t] == exts[t];
    SizeIsLength(exts[..t + 1]);
    SizeGrows(exts[..count], t + 1);
    assert exts[..count][..t + 1] == exts[..t + 1];
  }

  /** What the block holds, spelt out: 28 characters, an equals sign, the names, a NUL. */
  lemma SettingIs(exts: seq<string>)
    ensures Setting(exts) == "GDM_SUPPORTED_PAM_EXTENSIONS=" + Join(exts)
  {}

  // ----- parsing -----

  /** strcspn(s, " ") */
  function WordLength(s: string): (n: nat)
    ensures n <= |s| && ' ' !in s[..n] && (n < |s| ==> s[n] == ' ')
  {
    if s == "" || s[0] == ' ' then 0
    else
      var n := WordLength(s[1..]);
      assert s[..n + 1] == [s[0]] + s[1..][..n];
      n + 1
  }

  /** strspn(s, " ") */
  function SpaceLength(s: string): (n: nat)
    ensures n <= |s| && (n < |s| ==> s[n] != ' ') && (s != "" && s[0] == ' ' ==> n > 0)
  {
    if s == "" || s[0] != ' ' then 0 else 1 + SpaceLength(s[1..])
  }

  /** What is left after a word and the spaces behind it. */
  function AfterWord(s: string): string {
    var rest := s[WordLength(s)..];
    rest[SpaceLength(rest)..]
  }

  lemma AfterWordShorter(s: string)
    requires s != ""
    ensures |AfterWord(s)| < |s|
  {}

  /** The words as the macros meet them: the first is empty when the text starts with a space. */
  function Words(s: string): seq<string>
    decreases |s|
  {
    if s == "" then []
    else
      AfterWordShorter(s);
      [s[..WordLength(s)]] + Words(AfterWord(s))
  }

  /** None of the first `n` words is a prefix of the name. */
  ghost predicate Missed(words: seq<string>, name: string, n: nat) {
    forall i | 0 <= i < n && i < |words| :: !(words[i] <= name)
  }

  /** GDM_PAM_EXTENSION_LOOK_UP_TYPE: the first of the first 256 words that is a prefix of the name. */
  method LookUpType(env: string, name: string) returns (supported: bool, typ: nat)
    ensures supported <==> exists i | 0 <= i < |Words(env)| && i <= 255 :: Words(env)[i] <= name
    ensures supported ==> typ < |Words(env)| && typ <= 255 && Words(env)[typ] <= name
    ensures supported ==> forall i | 0 <= i < typ :: !(Words(env)[i] <= name)
  {
    supported, typ := LookUp(env, name, Words(env));
  }

  method LookUp(env: string, name: string, ghost words: seq<string>) returns (supported: bool, typ: nat)
    requires words == Words(env)
    ensures supported ==> typ < |words| && typ <= UCHAR_MAX && words[typ] <= name && Missed(words, name, typ)
    ensures !supported ==> Missed(words, name, UCHAR_MAX + 1)
  {
    var p := 0;
    typ := 0;
    assert env[0..] == env && words[0..] == words;
    while p < |env|
      invariant 0 <= p <= |env| && typ <= |words| && typ <= UCHAR_MAX
      invariant words[typ..] == Words(env[p..]) && Missed(words, name, typ)
      decreases |env| - p
    {
      var word, next := NextWord(env, p, words, typ);
      if word <= name {  // strncmp over the length of the word
        return true, typ;
      }
      MissedOne(words, name, typ);
      p := next;
      if typ >= UCHAR_MAX {
        return false, typ;
      }
      typ := typ + 1;
    }
    NoneLeft(words, name, typ);
    supported := false;
  }

  /** The word at `p`, and where the one after it starts. */
  method NextWord(env: string, p: nat, ghost words: seq<string>, ghost typ: nat) returns (word: string, next: nat)
    requires p < |env| && typ <= |words| && words[typ..] == Words(env[p..])
    ensures typ < |words| && word == words[typ]
    ensures p < next <= |env| && words[typ + 1..] == Words(env[next..])
  {
    WordAt(env, p, words, typ);
    word := env[p..][..WordLength(env[p..])];
    next := SkipWord(env, p);
  }

  lemma MissedOne(words: seq<string>, name: string, n: nat)
    requires n < |words| && Missed(words, name, n) && !(words[n] <= name)
    ensures Missed(words, name, n + 1)
  {}

  lemma NoneLeft(words: seq<string>, name: string, n: nat)
    requires n <= |words| && words[n..] == [] && Missed(words, name, n)
    ensures Missed(words, name, UCHAR_MAX + 1)
  {}

  lemma FirstWord(s: string, words: seq<string>)
    requires s != "" && words == Words(s)
    ensures words != [] && words[0] == s[..WordLength(s)] && words[1..] == Words(AfterWord(s))
  {}

  lemma WordAt(env: string, p: nat, words: seq<string>, typ: nat)
    requires p < |env| && typ <= |words| && words[typ..] == Words(env[p..])
    ensures typ < |words| && words[typ] == env[p..][..WordLength(env[p..])]
    ensures words[typ + 1..] == Words(AfterWord(env[p..]))
  {
    FirstWord(env[p..], words[typ..]);
    assert words[typ..][1..] == words[typ + 1..];
  }

  /** `_p += _length` twice: over the word, then over the spaces. */
  method SkipWord(env: string, p: nat) returns (q: nat)
    requires p < |env|
    ensures p < q <= |env| && env[q..] == AfterWord(env[p..])
  {
    AfterWordShorter(env[p..]);
    q := p + WordLength(env[p..]);
    assert env[q..] == env[p..][WordLength(env[p..])..];
    q := q + SpaceLength(env[q..]);
  }

  function NonEmpty(words: seq<string>): nat {
    if words == [] then 0 else NonEmpty(words[1..]) + (if words[0] == "" then 0 else 1)
  }

  /** GDM_PAM_EXTENSION_MESSAGE_INVALID_TYPE */
  method InvalidType(env: string, typ: nat) returns (invalid: bool)
    requires typ <= 255
    ensures invalid <==> typ >= NonEmpty(Words(env))
  {
    var n := -1;
    var p := 0;
    assert env[0..] == env;
    while p < |env| && n < UCHAR_MAX
      invariant 0 <= p <= |env| && -1 <= n <= UCHAR_MAX
      invariant NonEmpty(Words(env)) == n + 1 + NonEmpty(Words(env[p..]))
      decreases |env| - p
    {
      FirstWord(env[p..], Words(env[p..]));
      if WordLength(env[p..]) > 0 {
        n := n + 1;
      }
      p := SkipWord(env, p);
    }
    invalid := !(n >= typ);
  }

  /** Words are runs of text without spaces: none but the first can be empty, and together they are the text
      without its spaces. */
  lemma {:induction false} WordsAreText(s: string)
    ensures Flat(Words(s)) == Unspaced(s)
    ensures forall i | 0 <= i < |Words(s)| :: ' ' !in Words(s)[i] && (i > 0 ==> Words(s)[i] != "")
    ensures s != "" ==> (Words(s)[0] == "" <==> s[0] == ' ')
    decreases |s|
  {
    if s != "" {
      AfterWordShorter(s);
      var rest := Words(AfterWord(s));
      WordsAreText(AfterWord(s));
      NextStarts(s);
      UnspacedStep(s);
      FirstWord(s, Words(s));
      forall i | 0 <= i < |Words(s)| ensures ' ' !in Words(s)[i] && (i > 0 ==> Words(s)[i] != "") {
        assert i > 0 ==> Words(s)[i] == rest[i - 1];
      }
    }
  }

  lemma UnspacedStep(s: string)
    requires s != ""
    ensures Unspaced(s) == s[..WordLength(s)] + Unspaced(AfterWord(s))
  {
    var n := WordLength(s);
    var rest := s[n..];
    var k := SpaceLength(rest);
    UnspacedSpaces(rest);
    UnspacedParts(s[..n], rest[..k], rest[k..]);
    InThree(s, n, k);
  }

  lemma InThree(s: string, n: nat, k: nat)
    requires n + k <= |s|
    ensures s == s[..n] + (s[n..][..k] + s[n..][k..])
  {}

  lemma UnspacedParts(word: string, spaces: string, rest: string)
    requires ' ' !in word && Unspaced(spaces) == ""
    ensures Unspaced(word + (spaces + rest)) == word + Unspaced(rest)
  {
    UnspacedConcat(word, spaces + rest);
    UnspacedConcat(spaces, rest);
    UnspacedWord(word);
    assert "" + Unspaced(rest) == Unspaced(rest);
  }

  /** So the count of words that are not empty leaves out at most the first. */
  lemma NonEmptyIs(s: string)
    ensures NonEmpty(Words(s)) == |Words(s)| - if s != "" && s[0] == ' ' then 1 else 0
  {
    if s != "" {
      WordsAreText(s);
      AllCounted(Words(s)[1..]);
    }
  }

  lemma {:induction false} AllCounted(words: seq<string>)
    requires forall i | 0 <= i < |words| :: words[i] != ""
    ensures NonEmpty(words) == |words|
  {
    if words != [] {
      AllCounted(words[1..]);
    }
  }

  /** A further word starts with something other than a space. */
  lemma NextStarts(s: string)
    requires s != ""
    ensures AfterWord(s) != "" ==> AfterWord(s)[0] != ' '
  {}

  function Flat(words: seq<string>): string {
    if words == [] then "" else words[0] + Flat(words[1..])
  }

  function Unspaced(s: string): string {
    if s == "" then "" else (if s[0] == ' ' then "" else [s[0]]) + Unspaced(s[1..])
  }

  lemma {:induction false} UnspacedConcat(a: string, b: string)
    ensures Unspaced(a + b) == Unspaced(a) + Unspaced(b)
  {
    if a == "" {
      assert a + b == b;
    } else {
      UnspacedConcat(a[1..], b);
      assert (a + b)[0] == a[0] && (a + b)[1..] == a[1..] + b;
      Associates(if a[0] == ' ' then "" else [a[0]], Unspaced(a[1..]), Unspaced(b));
    }
  }

  lemma Associates(a: string, b: string, c: string)
    ensures a + b + c == a + (b + c)
  {}

  lemma {:induction false} UnspacedWord(s: string)
    requires ' ' !in s
    ensures Unspaced(s) == s
  {
    if s != "" {
      UnspacedWord(s[1..]);
      assert s == [s[0]] + s[1..];
    }
  }

  lemma {:induction false} UnspacedSpaces(s: string)
    ensures Unspaced(s[..SpaceLength(s)]) == ""
  {
    if s != "" && s[0] == ' ' {
      UnspacedSpaces(s[1..]);
      assert s[..SpaceLength(s)][1..] == s[1..][..SpaceLength(s[1..])];
    }
  }

  // ----- round trip -----

  ghost predicate Names(exts: seq<string>) {
    forall i | 0 <= i < |exts| :: exts[i] != "" && ' ' !in exts[i] && CText(exts[i])
  }

  lemma {:induction false} WordLengthOf(name: string, rest: string)
    requires ' ' !in name && (rest == "" || rest[0] == ' ')
    ensures WordLength(name + rest) == |name|
  {
    if name == "" {
      assert name + rest == rest;
    } else {
      WordLengthOf(name[1..], rest);
      assert (name + rest)[1..] == name[1..] + rest;
      assert name[0] in name;
    }
  }

  /** Join, taken apart from the front. */
  lemma {:induction false} JoinFront(exts: seq<string>)
    requires |exts| > 1
    ensures Join(exts) == exts[0] + " " + Join(exts[1..])
  {
    var init, last := exts[..|exts| - 1], exts[|exts| - 1];
    if |exts| == 2 {
      assert init == [exts[0]] && exts[1..] == [last];
    } else {
      JoinFront(init);
      assert init[1..] == exts[1..][..|exts| - 2];
      assert Join(exts[1..]) == Join(init[1..]) + " " + last;
      assert exts[0] + " " + Join(init[1..]) + " " + last == exts[0] + " " + (Join(init[1..]) + " " + last);
    }
  }

  lemma JoinStart(exts: seq<string>)
    requires exts != [] && Names(exts)
    ensures Join(exts) != "" && Join(exts)[0] != ' '
  {
    assert exts[0][0] in exts[0];
    if |exts| > 1 {
      JoinFront(exts);
    }
  }

  /** The words of the printed list are the names. */
  lemma {:induction false} WordsOfJoin(exts: seq<string>)
    requires Names(exts)
    ensures Words(Join(exts)) == exts
  {
    if exts != [] {
      WordsOfJoin(exts[1..]);
      FirstOfJoin(exts);
      assert exts == [exts[0]] + exts[1..];
    }
  }

  lemma FirstOfJoin(exts: seq<string>)
    requires Names(exts) && exts != []
    ensures Words(Join(exts)) == [exts[0]] + Words(Join(exts[1..]))
  {
    var rest := if |exts| == 1 then "" else " " + Join(exts[1..]);
    JoinSplit(exts, rest);
    AfterFirst(exts, rest);
    WordsStep(exts[0], rest);
  }

  lemma WordsStep(word: string, rest: string)
    requires word != "" && ' ' !in word && (rest != "" ==> rest[0] == ' ')
    ensures Words(word + rest) == [word] + Words(rest[SpaceLength(rest)..])
  {
    var s := word + rest;
    WordLengthOf(word, rest);
    assert s[..|word|] == word && s[|word|..] == rest;
  }

  lemma JoinSplit(exts: seq<string>, rest: string)
    requires exts != [] && rest == if |exts| == 1 then "" else " " + Join(exts[1..])
    ensures Join(exts) == exts[0] + rest
  {
    if |exts| > 1 {
      JoinFront(exts);
      assert exts[0] + " " + Join(exts[1..]) == exts[0] + (" " + Join(exts[1..]));
    }
  }

  lemma AfterFirst(exts: seq<string>, rest: string)
    requires exts != [] && Names(exts) && rest == if |exts| == 1 then "" else " " + Join(exts[1..])
    ensures rest[SpaceLength(rest)..] == Join(exts[1..])
  {
    if |exts| > 1 {
      JoinStart(exts[1..]);
      assert rest[1..] == Join(exts[1..]);
    }
  }

  /** The look-up of an advertised name, as the method above specifies it. */
  ghost predicate FoundAt(env: string, name: string, typ: nat) {
    && typ < |Words(env)| && typ <= 255 && Words(env)[typ] <= name
    && forall i | 0 <= i < typ :: !(Words(env)[i] <= name)
  }

  /** Looking up the i-th advertised name gives i exactly when no earlier name is a prefix of it. */
  lemma LookUpFindsItself(exts: seq<string>, i: nat)
    requires Names(exts) && i < |exts| <= 255
    ensures FoundAt(Join(exts), exts[i], i) <==> forall j | 0 <= j < i :: !(exts[j] <= exts[i])
  {
    WordsOfJoin(exts);
  }

  /** From the block to the look-up: behind the equals sign and up to the first NUL stands the text in which name
      i of those that fit is found at i, if and only if no earlier name is a prefix of it. */
  lemma AdvertisedIsFound(block: seq<char>, exts: seq<string>, n: nat, i: nat)
    requires i < n <= |exts| && n <= 255 && Names(exts[..n])
    requires Setting(exts[..n]) + [NUL] <= block
    ensures 29 + |Join(exts[..n])| < |block|
    ensures var text := block[29..29 + |Join(exts[..n])|];
            && block[..29] == "GDM_SUPPORTED_PAM_EXTENSIONS="
            && block[29 + |text|] == NUL && NUL !in block[..29 + |text|]
            && Words(text) == exts[..n]
            && (FoundAt(text, exts[i], i) <==> forall j | 0 <= j < i :: !(exts[j] <= exts[i]))
  {
    var some := exts[..n];
    TextOfSetting(block, some);
    WordsOfJoin(some);
    FoundAmongFirst(exts, n, i);
  }

  lemma FoundAmongFirst(exts: seq<string>, n: nat, i: nat)
    requires i < n <= |exts| && n <= 255 && Names(exts[..n])
    ensures FoundAt(Join(exts[..n]), exts[i], i) <==> forall j | 0 <= j < i :: !(exts[j] <= exts[i])
  {
    LookUpFindsItself(exts[..n], i);
    SamePrefixes(exts[..n], exts, i);
  }

  lemma SamePrefixes(some: seq<string>, exts: seq<string>, i: nat)
    requires some <= exts && i < |some|
    ensures (forall j | 0 <= j < i :: !(some[j] <= some[i])) <==> forall j | 0 <= j < i :: !(exts[j] <= exts[i])
  {
    assert forall j | 0 <= j <= i :: some[j] == exts[j];
  }

  lemma TextOfSetting(block: seq<char>, some: seq<string>)
    requires Names(some) && Setting(some) + [NUL] <= block
    ensures var n := |Join(some)|;
            && 29 + n < |block| && block[..29] == "GDM_SUPPORTED_PAM_EXTENSIONS="
            && block[29..29 + n] == Join(some) && block[29 + n] == NUL && NUL !in block[..29 + n]
  {
    var s := Setting(some);
    SettingIs(some);
    JoinNoNul(some);
    assert |s| == 29 + |Join(some)|;
    assert (s + [NUL])[..|s|] == s && block[..|s|] == (s + [NUL])[..|s|];
    assert s[..29] == "GDM_SUPPORTED_PAM_EXTENSIONS=" && s[29..] == Join(some);
    assert block[|s|] == (s + [NUL])[|s|];
    assert block[..29] == s[..29] && block[29..|s|] == s[29..];
  }

  lemma {:induction false} JoinNoNul(exts: seq<string>)
    requires Names(exts)
    ensures NUL !in Join(exts)
  {
    if |exts| > 1 {
      JoinNoNul(exts[..|exts| - 1]);
    }
  }

  /** The types that are not invalid are exactly the indices of the advertised names. */
  lemma ValidTypesAreIndices(exts: seq<string>, typ: nat)
    requires Names(exts)
    ensures typ < NonEmpty(Words(Join(exts))) <==> typ < |exts|
  {
    WordsOfJoin(exts);
    AllCounted(exts);
  }

  /** A name that an earlier one is a prefix of is mistaken for it. */
  lemma PrefixIsMistaken()
    ensures Names(["gdm", "gdm.json"]) && FoundAt(Join(["gdm", "gdm.json"]), "gdm.json", 0)
  {
    var exts := ["gdm", "gdm.json"];
    assert Names(exts);
    WordsOfJoin(exts);
    assert "gdm" <= "gdm.json";
  }
}
