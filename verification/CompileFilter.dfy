/** Stripping GCC-only flags from a compile command, given as one string or as a list of arguments. */
module CompileFilter {
  type Token = string

  const STRIP_FLAGS: set<Token> := {
    "-fno-reorder-functions", "-mpreferred-stack-boundary=2", "-fno-freestanding", "-fno-defer-pop",
    "-fsanitize=bounds-strict"
  }

  const SYSROOT: Token := "--sysroot"
  const SYSROOT_EQ: Token := "--sysroot="
  const CLANG: Token := "clang++"

  const EXTRA_ARGS: seq<Token> := ["-Wno-unknown-warning-option", "-Wno-unused-command-line-argument"]

  // ----- Splitting and joining -----

  /** Python's str.isspace for one character. */
  predicate IsSpace(c: char) {
    var u := c as int;
    || 0x09 <= u <= 0x0D || 0x1C <= u <= 0x20 || u == 0x85 || u == 0xA0 || u == 0x1680
    || 0x2000 <= u <= 0x200A || u == 0x2028 || u == 0x2029 || u == 0x202F || u == 0x205F || u == 0x3000
  }

  ghost predicate Clean(t: Token) {
    t != "" && forall c :: c in t ==> !IsSpace(c)
  }

  function Word(w: string): seq<Token> {
    if w == "" then [] else [w]
  }

  /** str.split without arguments, in the middle of a word `w`. */
  function SplitFrom(s: string, w: string): seq<Token>
    decreases |s|
  {
    if s == "" then Word(w)
    else if IsSpace(s[0]) then Word(w) + SplitFrom(s[1..], "")
    else SplitFrom(s[1..], w + [s[0]])
  }

  function Split(s: string): seq<Token> {
    SplitFrom(s, "")
  }

  /** ' '.join */
  function Join(tokens: seq<Token>): string {
    if tokens == [] then ""
    else if |tokens| == 1 then tokens[0]
    else tokens[0] + " " + Join(tokens[1..])
  }

  lemma {:induction false} SplitInWord(t: string, rest: string, w: string)
    requires forall c :: c in t ==> !IsSpace(c)
    ensures SplitFrom(t + rest, w) == SplitFrom(rest, w + t)
    decreases |t|
  {
    if t == "" {
      assert t + rest == rest && w + t == w;
    } else {
      assert (t + rest)[1..] == t[1..] + rest;
      SplitInWord(t[1..], rest, w + [t[0]]);
      assert (w + [t[0]]) + t[1..] == w + t;
    }
  }

  /** Splitting undoes joining. */
  lemma {:induction false} SplitJoin(tokens: seq<Token>)
    requires forall t :: t in tokens ==> Clean(t)
    ensures Split(Join(tokens)) == tokens
  {
    if tokens != [] {
      var t := tokens[0];
      assert Clean(t);
      if |tokens| == 1 {
        SplitInWord(t, "", "");
        assert t + "" == t && "" + t == t;
      } else {
        var tail := " " + Join(tokens[1..]);
        SplitInWord(t, tail, "");
        assert Join(tokens) == t + tail && "" + t == t;
        assert tail[1..] == Join(tokens[1..]);
        SplitJoin(tokens[1..]);
      }
    }
  }

  /** Every word that splitting yields is non-empty and free of white space. */
  lemma {:induction false} SplitIsClean(s: string, w: string)
    requires forall c :: c in w ==> !IsSpace(c)
    ensures forall t :: t in SplitFrom(s, w) ==> Clean(t)
    decreases |s|
  {
    if s != "" {
      if IsSpace(s[0]) {
        SplitIsClean(s[1..], "");
      } else {
        SplitIsClean(s[1..], w + [s[0]]);
      }
    }
  }

  /** Blanks and line ends separate words, visible ASCII characters do not. */
  lemma SpacesAre()
    ensures IsSpace(' ') && IsSpace('\t') && IsSpace('\n') && IsSpace('\r')
    ensures forall c: char :: '!' <= c <= '~' ==> !IsSpace(c)
  {
  }

  /** White space anywhere separates what is before it from what is behind it. */
  lemma SplitAt(front: string, c: char, back: string)
    requires IsSpace(c)
    ensures Split(front + [c] + back) == Split(front) + Split(back)
  {
    SplitFromAt(front, c, back, "");
  }

  lemma {:induction false} SplitFromAt(front: string, c: char, back: string, w: string)
    requires IsSpace(c)
    ensures SplitFrom(front + [c] + back, w) == SplitFrom(front, w) + SplitFrom(back, "")
    decreases |front|
  {
    var all := front + [c] + back;
    if front == "" {
      assert all[1..] == back;
    } else {
      assert all[1..] == front[1..] + [c] + back;
      if IsSpace(front[0]) {
        SplitFromAt(front[1..], c, back, "");
      } else {
        SplitFromAt(front[1..], c, back, w + [front[0]]);
      }
    }
  }

  /** Joining puts one blank between any two parts. */
  lemma {:induction false} JoinAppend(front: seq<Token>, back: seq<Token>)
    requires front != [] && back != []
    ensures Join(front + back) == Join(front) + " " + Join(back)
  {
    if |front| == 1 {
      assert (front + back)[1..] == back;
    } else {
      assert (front + back)[1..] == front[1..] + back;
      JoinAppend(front[1..], back);
    }
  }

  // ----- The filter -----

  predicate Bare(t: Token) {
    t == SYSROOT || t == SYSROOT + "\n"
  }

  /** `^--sysroot=.*$`: the rest of the token is on one line, up to one final newline. */
  predicate WithValue(t: Token) {
    SYSROOT_EQ <= t && forall k :: |SYSROOT_EQ| <= k < |t| - 1 ==> t[k] != '\n'
  }

  predicate MatchesPattern(t: Token) {
    Bare(t) || WithValue(t)
  }

  predicate Dropped(t: Token) {
    t in STRIP_FLAGS || MatchesPattern(t)
  }

  /** Which tokens are dropped, spelled out. */
  lemma DroppedIs(t: Token)
    ensures Dropped(t) <==>
            || t == "-fno-reorder-functions" || t == "-mpreferred-stack-boundary=2" || t == "-fno-freestanding"
            || t == "-fno-defer-pop" || t == "-fsanitize=bounds-strict"
            || t == "--sysroot" || t == "--sysroot\n"
            || (|t| >= 10 && t[..10] == "--sysroot="
                && ('\n' !in t[10..] || (t[|t| - 1] == '\n' && '\n' !in t[10..|t| - 1])))
  {
    WithValueIs(t);
  }

  lemma WithValueIs(t: Token)
    ensures WithValue(t) <==>
            |t| >= 10 && t[..10] == "--sysroot="
            && ('\n' !in t[10..] || (t[|t| - 1] == '\n' && '\n' !in t[10..|t| - 1]))
  {
    var prefix := SYSROOT_EQ;
    assert |prefix| == 10;
    assert prefix <= t <==> |t| >= 10 && t[..10] == prefix;
    if |t| >= 10 {
      assert '\n' in t[10..] <==> exists k :: 10 <= k < |t| && t[k] == '\n';
      assert |t| > 10 ==> ('\n' in t[10..|t| - 1] <==> exists k :: 10 <= k < |t| - 1 && t[k] == '\n');
    }
  }

  datatype Progress = Progress(result: seq<Token>, skip: bool)

  /** The state of either filter loop after it has seen one more token. */
  function Scan(p: Progress, t: Token): Progress {
    if p.skip then p.(skip := false)
    else if t in STRIP_FLAGS then p
    else if MatchesPattern(t) then p.(skip := '=' !in t)
    else p.(result := p.result + [t])
  }

  function Scanned(tokens: seq<Token>): Progress {
    if tokens == [] then Progress([], false)
    else Scan(Scanned(tokens[..|tokens| - 1]), tokens[|tokens| - 1])
  }

  predicate Contains(s: string, sub: string) {
    sub <= s || (s != "" && Contains(s[1..], sub))
  }

  predicate IsGcc(t: Token) {
    Contains(t, "gcc") || Contains(t, "g++")
  }

  lemma {:induction false} ContainsAt(s: string, sub: string) returns (k: nat)
    requires Contains(s, sub)
    ensures k + |sub| <= |s| && s[k..k + |sub|] == sub
  {
    if sub <= s {
      k := 0;
    } else {
      k := ContainsAt(s[1..], sub);
      assert s[1..][k..k + |sub|] == s[k + 1..k + 1 + |sub|];
      k := k + 1;
    }
  }

  predicate NamesGccAt(t: Token, k: nat) {
    k + 3 <= |t| && (t[k..k + 3] == "gcc" || t[k..k + 3] == "g++")
  }

  /** A name is taken for a GCC compiler exactly when "gcc" or "g++" occurs somewhere in it. */
  lemma IsGccIs(t: Token)
    ensures IsGcc(t) <==> exists k: nat :: NamesGccAt(t, k)
  {
    hide Contains;
    if IsGcc(t) {
      var k := ContainsAt(t, if Contains(t, "gcc") then "gcc" else "g++");
      assert NamesGccAt(t, k);
    }
    if exists k: nat :: NamesGccAt(t, k) {
      var k: nat :| NamesGccAt(t, k);
      assert t[k..k + 3] <= t[k..];
      ContainsLater(t, t[k..k + 3], k);
    }
  }

  function Renamed(tokens: seq<Token>): seq<Token> {
    if tokens != [] && IsGcc(tokens[0]) then tokens[0 := CLANG] else tokens
  }

  /** What either filter makes of a list of tokens. */
  function Filtered(tokens: seq<Token>): seq<Token> {
    Renamed(Scanned(tokens).result) + EXTRA_ARGS
  }

  /**
   * A result made of the surviving tokens `s`: the first one replaced if it names GCC, the others as they
   * are, and two more arguments behind them.
   */
  ghost predicate ShapedBy(s: seq<Token>, result: seq<Token>, compiler: Token, extra1: Token, extra2: Token) {
    && |result| == |s| + 2 && result[|s|] == extra1 && result[|s| + 1] == extra2
    && (s != [] ==> result[1..|s|] == s[1..])
    && (s != [] ==> if exists k: nat :: NamesGccAt(s[0], k) then result[0] == compiler else result[0] == s[0])
  }

  ghost predicate Shaped(s: seq<Token>, result: seq<Token>) {
    ShapedBy(s, result, "clang++", "-Wno-unknown-warning-option", "-Wno-unused-command-line-argument")
  }

  lemma RenamedIsShaped(s: seq<Token>, compiler: Token, extra: seq<Token>)
    requires |extra| == 2
    ensures ShapedBy(s, (if s != [] && IsGcc(s[0]) then s[0 := compiler] else s) + extra, compiler, extra[0], extra[1])
  {
    hide IsGcc, NamesGccAt;
    if s != [] {
      IsGccIs(s[0]);
    }
  }

  lemma FilteredIsShaped(tokens: seq<Token>)
    ensures Shaped(Survivors(tokens, |tokens|), Filtered(tokens))
  {
    hide IsGcc, ShapedBy;
    ScanKeepsSurvivors(tokens, |tokens|);
    assert tokens[..|tokens|] == tokens;
    RenamedIsShaped(Survivors(tokens, |tokens|), CLANG, EXTRA_ARGS);
  }

  /** `filter_command`: the filter on a command line. */
  method FilterCommand(command: string) returns (filtered: string)
    ensures filtered == Join(Filtered(Split(command)))
    ensures var words := Split(command); Shaped(Survivors(words, |words|), Filtered(words))
  {
    FilteredIsShaped(Split(command));
    var parts := Split(command);
    var result: seq<Token> := [];
    var skip := false;
    for i := 0 to |parts|
      invariant Scanned(parts[..i]) == Progress(result, skip)
    {
      var part := parts[i];
      assert parts[..i + 1][..i] == parts[..i];
      if skip {
        skip := false;
        continue;
      }
      if part in STRIP_FLAGS {
        continue;
      }
      if MatchesPattern(part) {
        if !('=' in part) {
          skip := true;
        }
        continue;
      }
      result := result + [part];
    }
    assert parts[..|parts|] == parts;
    if result != [] && IsGcc(result[0]) {
      result := result[0 := CLANG];
    }
    result := result + EXTRA_ARGS;
    filtered := Join(result);
  }

  /** The filter of `main` on a list of arguments. */
  method FilterArguments(arguments: seq<Token>) returns (result: seq<Token>)
    ensures result == Filtered(arguments)
    ensures Shaped(Survivors(arguments, |arguments|), result)
  {
    FilteredIsShaped(arguments);
    result := [];
    var skip := false;
    for i := 0 to |arguments|
      invariant Scanned(arguments[..i]) == Progress(result, skip)
    {
      assert arguments[..i + 1][..i] == arguments[..i];
      if skip {
        skip := false;
        continue;
      }
      if arguments[i] in STRIP_FLAGS {
        continue;
      }
      if MatchesPattern(arguments[i]) {
        if '=' !in arguments[i] {
          skip := true;
        }
        continue;
      }
      result := result + [arguments[i]];
    }
    assert arguments[..|arguments|] == arguments;
    if result != [] && IsGcc(result[0]) {
      result := result[0 := CLANG];
    }
    result := result + EXTRA_ARGS;
  }

  /** On clean tokens the two filters agree: filtering the joined command joins the filtered list. */
  lemma FiltersAgree(tokens: seq<Token>)
    requires forall t :: t in tokens ==> Clean(t)
    ensures Join(Filtered(Split(Join(tokens)))) == Join(Filtered(tokens))
  {
    SplitJoin(tokens);
  }

  // ----- Which tokens survive -----

  /** How many bare --sysroot tokens stand immediately before position `i`. */
  function BareRun(tokens: seq<Token>, i: nat): nat
    requires i <= |tokens|
  {
    if i > 0 && Bare(tokens[i - 1]) then 1 + BareRun(tokens, i - 1) else 0
  }

  /**
   * A token survives when it is neither stripped nor a sysroot pattern, and is not the value of a bare
   * --sysroot; in a row of bare tokens every second one is a value.
   */
  predicate Survives(tokens: seq<Token>, i: nat)
    requires i < |tokens|
  {
    !Dropped(tokens[i]) && BareRun(tokens, i) % 2 == 0
  }

  /** The surviving tokens among the first `n`, in their order. */
  function Survivors(tokens: seq<Token>, n: nat): seq<Token>
    requires n <= |tokens|
  {
    if n == 0 then []
    else Survivors(tokens, n - 1) + (if Survives(tokens, n - 1) then [tokens[n - 1]] else [])
  }

  /**
   * A token that does not follow a bare --sysroot survives exactly when it is not dropped; the value of a
   * bare --sysroot, one that is not such a value itself, never does.
   */
  lemma SurvivesIs(tokens: seq<Token>, i: nat)
    requires i < |tokens|
    ensures i == 0 || (tokens[i - 1] != "--sysroot" && tokens[i - 1] != "--sysroot\n") ==>
              (Survives(tokens, i) <==> !Dropped(tokens[i]))
    ensures i > 0 && tokens[i - 1] == "--sysroot"
            && (i == 1 || (tokens[i - 2] != "--sysroot" && tokens[i - 2] != "--sysroot\n")) ==>
              !Survives(tokens, i)
  {
    hide Dropped, Bare;
    if i > 0 {
      BareIs(tokens[i - 1]);
      assert BareRun(tokens, i) == if Bare(tokens[i - 1]) then 1 + BareRun(tokens, i - 1) else 0;
    }
    if i > 1 {
      BareIs(tokens[i - 2]);
      assert !Bare(tokens[i - 2]) ==> BareRun(tokens, i - 1) == 0;
    }
  }

  lemma BareIs(t: Token)
    ensures Bare(t) <==> t == "--sysroot" || t == "--sysroot\n"
  {
    assert SYSROOT + "\n" == "--sysroot\n";
  }

  /** The survivors stand in the order of the tokens: `places` are their positions. */
  lemma {:induction false} SurvivorsInOrder(tokens: seq<Token>, n: nat) returns (places: seq<nat>)
    requires n <= |tokens|
    ensures |places| == |Survivors(tokens, n)|
    ensures forall m :: 0 <= m < |places| ==> places[m] < n && Survivors(tokens, n)[m] == tokens[places[m]]
    ensures forall l, m :: 0 <= l < m < |places| ==> places[l] < places[m]
    ensures forall i :: 0 <= i < n ==> (Survives(tokens, i) <==> i in places)
  {
    hide Survives;
    if n == 0 {
      places := [];
    } else {
      var before := SurvivorsInOrder(tokens, n - 1);
      places := if Survives(tokens, n - 1) then before + [n - 1] else before;
      PlacesStep(tokens, n, before, places);
    }
  }

  lemma PlacesStep(tokens: seq<Token>, n: nat, before: seq<nat>, places: seq<nat>)
    requires 0 < n <= |tokens| && |before| == |Survivors(tokens, n - 1)|
    requires forall m :: 0 <= m < |before| ==>
               before[m] < n - 1 && Survivors(tokens, n - 1)[m] == tokens[before[m]]
    requires forall i :: 0 <= i < n - 1 ==> (Survives(tokens, i) <==> i in before)
    requires places == if Survives(tokens, n - 1) then before + [n - 1] else before
    ensures |places| == |Survivors(tokens, n)|
    ensures forall m :: 0 <= m < |places| ==> places[m] < n && Survivors(tokens, n)[m] == tokens[places[m]]
    ensures forall i :: 0 <= i < n ==> (Survives(tokens, i) <==> i in places)
  {
    hide Survives;
    var kept := if Survives(tokens, n - 1) then [tokens[n - 1]] else [];
    var shorter, longer := Survivors(tokens, n - 1), Survivors(tokens, n);
    assert longer == shorter + kept;
    hide Survivors;
    forall i | 0 <= i < n ensures Survives(tokens, i) <==> i in places {
      if i == n - 1 {
        assert i !in before;
        if Survives(tokens, i) {
          assert places[|before|] == i;
        }
      } else {
        assert i in places <==> i in before;
      }
    }
  }

  lemma BareIsNotStripped(t: Token)
    ensures Bare(t) ==> t !in STRIP_FLAGS && '=' !in t
    ensures WithValue(t) ==> '=' in t
  {
    if WithValue(t) {
      assert t[|SYSROOT_EQ| - 1] == SYSROOT_EQ[|SYSROOT_EQ| - 1] == '=';
    }
  }

  /** What the loops keep is exactly the survivors; they are about to skip after an odd run of bare tokens. */
  lemma {:induction false} ScanKeepsSurvivors(tokens: seq<Token>, n: nat)
    requires n <= |tokens|
    ensures Scanned(tokens[..n]) == Progress(Survivors(tokens, n), BareRun(tokens, n) % 2 == 1)
  {
    if n > 0 {
      ScanKeepsSurvivors(tokens, n - 1);
      assert tokens[..n][..n - 1] == tokens[..n - 1];
      BareIsNotStripped(tokens[n - 1]);
    }
  }

  lemma {:induction false} SurvivorsAreKept(tokens: seq<Token>, n: nat)
    requires n <= |tokens|
    ensures forall t :: t in Survivors(tokens, n) ==> t in tokens && !Dropped(t)
  {
    if n > 0 {
      SurvivorsAreKept(tokens, n - 1);
    }
  }

  /** Of the tokens a filter returns, none is dropped by a second pass. */
  lemma NothingToDropRemains(tokens: seq<Token>)
    ensures forall t :: t in Filtered(tokens) ==> !Dropped(t)
    ensures (forall t :: t in tokens ==> Clean(t)) ==> forall t :: t in Filtered(tokens) ==> Clean(t)
  {
    ScanKeepsSurvivors(tokens, |tokens|);
    assert tokens[..|tokens|] == tokens;
    SurvivorsAreKept(tokens, |tokens|);
    AddedTokens();
  }

  /** Flags that begin with -W and words that begin with a letter are not dropped. */
  lemma NotDropped(t: Token)
    requires |t| > 1 && (t[0] != '-' || t[1] == 'W')
    ensures !Dropped(t)
  {
    assert forall f :: f in STRIP_FLAGS ==> f[0] == '-' && f[1] != 'W';
    assert SYSROOT[0] == '-' && SYSROOT[1] == '-';
  }

  predicate Visible(t: string) {
    t == "" || (0x21 <= t[0] as int <= 0x7E && Visible(t[1..]))
  }

  lemma {:induction false} VisibleIsClean(t: string)
    requires Visible(t)
    ensures forall c :: c in t ==> !IsSpace(c)
  {
    if t != "" {
      VisibleIsClean(t[1..]);
      assert forall c :: c in t ==> c == t[0] || c in t[1..];
    }
  }

  lemma {:induction false} VisibleFrom(t: string, k: nat)
    requires k <= |t| && forall i :: k <= i < |t| ==> 0x21 <= t[i] as int <= 0x7E
    ensures Visible(t[k..])
    decreases |t| - k
  {
    if k < |t| {
      VisibleFrom(t, k + 1);
      assert t[k..][1..] == t[k + 1..];
    }
  }

  lemma VisibleWord(t: Token)
    requires |t| > 1 && (t[0] != '-' || t[1] == 'W')
    requires forall i :: 0 <= i < |t| ==> 0x21 <= t[i] as int <= 0x7E
    ensures !Dropped(t) && Clean(t)
  {
    NotDropped(t);
    VisibleFrom(t, 0);
    assert t[0..] == t;
    VisibleIsClean(t);
  }

  /** The arguments that the filter adds, and the compiler name it writes, would pass through it. */
  lemma AddedTokens()
    ensures forall t :: t in EXTRA_ARGS + [CLANG] ==> !Dropped(t) && Clean(t)
  {
    hide Dropped, Clean;
    VisibleWord(EXTRA_ARGS[0]);
    VisibleWord(EXTRA_ARGS[1]);
    VisibleWord(CLANG);
  }

  lemma {:induction false} ScanOfKept(tokens: seq<Token>)
    requires forall t :: t in tokens ==> !Dropped(t)
    ensures Scanned(tokens) == Progress(tokens, false)
  {
    if tokens != [] {
      var n := |tokens| - 1;
      assert forall t :: t in tokens[..n] ==> t in tokens;
      ScanOfKept(tokens[..n]);
      assert tokens[n] in tokens;
      assert tokens[..n] + [tokens[n]] == tokens;
    }
  }

  lemma {:induction false} ContainsLetters(s: string, sub: string, c: char)
    requires Contains(s, sub) && c in sub
    ensures c in s
  {
    if !(sub <= s) {
      ContainsLetters(s[1..], sub, c);
    }
  }

  lemma {:induction false} ContainsLater(s: string, sub: string, k: nat)
    requires k <= |s| && sub <= s[k..]
    ensures Contains(s, sub)
  {
    if k == 0 {
      assert s[0..] == s;
    } else {
      assert s[1..][k - 1..] == s[k..];
      ContainsLater(s[1..], sub, k - 1);
    }
  }

  lemma ClangIsGcc()
    ensures IsGcc(CLANG)
  {
    hide Contains;
    assert CLANG[4..] == "g++";
    ContainsLater(CLANG, "g++", 4);
  }

  lemma ExtraIsNotGcc()
    ensures !IsGcc(EXTRA_ARGS[0])
  {
    hide Contains;
    var flag := EXTRA_ARGS[0];
    if Contains(flag, "gcc") {
      ContainsLetters(flag, "gcc", 'c');
    }
    if Contains(flag, "g++") {
      ContainsLetters(flag, "g++", '+');
    }
  }

  /** Filtering a second time only adds the extra arguments once more. */
  lemma FilterTwice(tokens: seq<Token>)
    ensures Filtered(Filtered(tokens)) == Filtered(tokens) + EXTRA_ARGS
  {
    hide Contains, Dropped;
    NothingToDropRemains(tokens);
    ScanOfKept(Filtered(tokens));
    ClangIsGcc();
    ExtraIsNotGcc();
  }

  /** The same on command lines, for every string. */
  lemma FilterCommandTwice(command: string)
    ensures var once := Join(Filtered(Split(command)));
            Join(Filtered(Split(once))) == Join(Filtered(Split(command)) + EXTRA_ARGS)
  {
    var tokens := Split(command);
    SplitIsClean(command, "");
    NothingToDropRemains(tokens);
    SplitJoin(Filtered(tokens));
    FilterTwice(tokens);
  }
}
