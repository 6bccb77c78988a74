/** The user-space option parser: one call yields one option; what a whole run of calls yields is a function. */
module Getopt {

  datatype Option<T> = None | Some(value: T)

  /** The message that a call prints about the option letter. */
  datatype Message = Quiet | IllegalOption | AttachedArgument | MissingArgument

  /** One option of a run: what the call returns and leaves in `optarg` and `optopt`, and its message. */
  datatype Outcome = Outcome(ret: char, optarg: Option<string>, optopt: char, message: Message)

  /** A whole run: its options, and the tokens left over as operands. */
  datatype Parsed = Parsed(options: seq<Outcome>, operands: seq<string>)

  predicate Known(spec: string, c: char) {
    c in spec
  }

  /** Where strchr finds `c`. */
  function Position(spec: string, c: char): (p: nat)
    requires Known(spec, c)
    ensures p < |spec| && spec[p] == c && c !in spec[..p]
  {
    if spec[0] == c then 0 else 1 + Position(spec[1..], c)
  }

  predicate TakesArgument(spec: string, c: char) {
    Known(spec, c) && Position(spec, c) + 1 < |spec| && spec[Position(spec, c) + 1] == ':'
  }

  predicate OptionLike(token: string) {
    |token| >= 2 && token[0] == '-'
  }

  // ---- What a run yields, token by token and letter by letter.

  function After(o: Outcome, p: Parsed): Parsed {
    Parsed([o] + p.options, p.operands)
  }

  function Parse(tokens: seq<string>, spec: string, arg: Option<string>): (p: Parsed)
    decreases |tokens|, 0
  {
    if tokens == [] || !OptionLike(tokens[0]) then
      Parsed([], tokens)
    else if tokens[0] == "--" then
      Parsed([], tokens[1..])
    else
      ParseLetters(tokens[0][1..], tokens[1..], spec, arg)
  }

  function ParseLetters(letters: string, rest: seq<string>, spec: string, arg: Option<string>): (p: Parsed)
    decreases |rest|, 1 + |letters|
  {
    if letters == "" then
      Parse(rest, spec, arg)
    else
      var c := letters[0];
      if !Known(spec, c) then
        After(Outcome('?', arg, c, IllegalOption), ParseLetters(letters[1..], rest, spec, arg))
      else if !TakesArgument(spec, c) then
        After(Outcome(c, None, c, Quiet), ParseLetters(letters[1..], rest, spec, None))
      else if |letters| > 1 then
        After(Outcome('?', arg, c, AttachedArgument), Parse(rest, spec, arg))
      else if rest == [] then
        After(Outcome('?', arg, c, MissingArgument), Parse(rest, spec, arg))
      else
        After(Outcome(c, Some(rest[0]), c, Quiet), Parse(rest[1..], spec, Some(rest[0])))
  }

  lemma FirstToken(tokens: seq<string>, spec: string, arg: Option<string>)
    ensures ParseLetters("", tokens, spec, arg) ==
      if tokens == [] then Parsed([], [])
      else if tokens[0] == "--" then Parsed([], tokens[1..])
      else if !OptionLike(tokens[0]) then Parsed([], tokens)
      else ParseLetters(tokens[0][1..], tokens[1..], spec, arg)
  {
  }

  // ---- The parser.

  class Getopt {
    var optarg: Option<string>
    var optind: nat
    var optopt: char
    /** The token whose letters are being read: the pointer to the letters behind its dash. */
    var optcursor: Option<nat>
    var nextchar: nat

    constructor ()
      ensures optind == 1 && optarg == None && optcursor == None
    {
      optarg, optind, optopt, optcursor, nextchar := None, 1, '\0', None, 0;
    }

    /** A cluster is being read exactly when the cursor is set; it has letters left. */
    predicate Valid(argv: seq<string>)
      reads this
    {
      optcursor.Some? ==>
        && optcursor.value == optind < |argv|
        && OptionLike(argv[optind]) && argv[optind] != "--"
        && 1 + nextchar < |argv[optind]|
    }

    /** The tokens from `i` on. */
    static function From(argv: seq<string>, i: nat): seq<string> {
      if i <= |argv| then argv[i..] else []
    }

    /** The letters of the current cluster that are still unread, and the tokens behind it. */
    function Ahead(argv: seq<string>): (string, seq<string>)
      reads this
      requires Valid(argv)
    {
      match optcursor
      case None => ("", From(argv, optind))
      case Some(t) => (argv[t][1 + nextchar..], argv[t + 1..])
    }

    /** Everything that this and the following calls yield. */
    function Future(argv: seq<string>, spec: string): Parsed
      reads this
      requires Valid(argv)
    {
      ParseLetters(Ahead(argv).0, Ahead(argv).1, spec, optarg)
    }

    /** What a run of calls still has to read; every option makes it smaller. */
    function Unread(argv: seq<string>): (nat, nat)
      reads this
      requires Valid(argv)
    {
      (if optind < |argv| then |argv| - optind else 0,
       if optcursor.Some? then |argv[optind]| - 1 - nextchar else if optind < |argv| then |argv[optind]| else 0)
    }

    static predicate Fewer(m: (nat, nat), n: (nat, nat)) {
      m.0 < n.0 || (m.0 == n.0 && m.1 < n.1)
    }

    /**
     * One call. It returns no option exactly when nothing is left to yield, and then `optind` is at the operands;
     * otherwise it yields the first of what is left.
     */
    method Next(argv: seq<string>, optstring: string) returns (ret: Option<char>, message: Message)
      requires Valid(argv)
      modifies this
      ensures Valid(argv)
      ensures ret.None? ==> optcursor == None && optarg == old(optarg)
      ensures ret.None? ==> old(Future(argv, optstring)) == Parsed([], From(argv, optind))
      ensures ret.Some? ==>
        old(Future(argv, optstring)) == After(Outcome(ret.value, optarg, optopt, message), Future(argv, optstring))
      ensures ret.Some? ==> Fewer(Unread(argv), old(Unread(argv)))
    {
      hide Known, TakesArgument, ParseLetters, Parse;
      FirstToken(From(argv, optind), optstring, optarg);
      if optcursor == None {
        nextchar := 0;
      }
      if optind >= |argv| {
        return None, Quiet;
      }
      if optcursor == None {
        assert From(argv, optind)[0] == argv[optind] && From(argv, optind)[1..] == From(argv, optind + 1);
        if argv[optind] == "--" {
          optind := optind + 1;
          optcursor := None;
          return None, Quiet;
        }
        if !OptionLike(argv[optind]) {
          optcursor := None;
          return None, Quiet;
        }
        optcursor := Some(optind);
        nextchar := 0;
      }
      var c, m := NextLetter(argv, optstring);
      return Some(c), m;
    }

    /** The part of a call that reads a letter of the current cluster. */
    method NextLetter(argv: seq<string>, optstring: string) returns (ret: char, message: Message)
      requires Valid(argv) && optcursor.Some?
      modifies this
      ensures Valid(argv)
      ensures old(Future(argv, optstring)) == After(Outcome(ret, optarg, optopt, message), Future(argv, optstring))
      ensures optind > old(optind) || (optind == old(optind) && optcursor.Some? && nextchar > old(nextchar))
    {
      hide Known, TakesArgument, Parse, OptionLike;
      optopt := argv[optcursor.value][1 + nextchar];
      if !Known(optstring, optopt) {
        Advance(argv);
        return '?', IllegalOption;
      }
      if TakesArgument(optstring, optopt) {
        if 1 + nextchar + 1 != |argv[optcursor.value]| {
          optind := optind + 1;
          optcursor := None;
          return '?', AttachedArgument;
        }
        if optind + 1 < |argv| {
          optind := optind + 1;
          optarg := Some(argv[optind]);
          optind := optind + 1;
          optcursor := None;
          return optopt, Quiet;
        }
        optind := optind + 1;
        optcursor := None;
        return '?', MissingArgument;
      }
      Advance(argv);
      optarg := None;
      return optopt, Quiet;
    }

    /** Steps to the next letter, or behind the token after its last one. */
    method Advance(argv: seq<string>)
      requires Valid(argv) && optcursor.Some?
      modifies `optind, `optcursor, `nextchar
      ensures Valid(argv) && Ahead(argv) == (old(Ahead(argv)).0[1..], old(Ahead(argv)).1)
      ensures optind > old(optind) || (optind == old(optind) && optcursor.Some? && nextchar > old(nextchar))
    {
      nextchar := nextchar + 1;
      assert old(Ahead(argv)).0[1..] == argv[optind][1 + nextchar..];
      if 1 + nextchar == |argv[optind]| {
        optind := optind + 1;
        optcursor := None;
      }
    }
  }

  /** The usual loop around the parser yields the whole run and leaves `optind` at the operands. */
  method ParseAll(argv: seq<string>, optstring: string) returns (p: Parsed)
    ensures p == Parse(Getopt.From(argv, 1), optstring, None)
  {
    var parser := new Getopt();
    var options: seq<Outcome> := [];
    while true
      invariant parser.Valid(argv) && fresh(parser)
      invariant Parse(Getopt.From(argv, 1), optstring, None)
             == Parsed(options + parser.Future(argv, optstring).options, parser.Future(argv, optstring).operands)
      decreases parser.Unread(argv).0, parser.Unread(argv).1
    {
      ghost var future := parser.Future(argv, optstring);
      var ret, message := parser.Next(argv, optstring);
      if ret.None? {
        return Parsed(options, Getopt.From(argv, parser.optind));
      }
      var o := Outcome(ret.value, parser.optarg, parser.optopt, message);
      assert options + future.options == options + [o] + parser.Future(argv, optstring).options;
      options := options + [o];
    }
  }

  // ---- Clusters.

  /** One token for each letter. */
  function Separate(letters: string): (tokens: seq<string>)
    ensures |tokens| == |letters| && forall i :: 0 <= i < |letters| ==> tokens[i] == ['-', letters[i]]
  {
    seq(|letters|, i requires 0 <= i < |letters| => ['-', letters[i]])
  }

  lemma SeparateFirst(letters: string)
    requires letters != ""
    ensures Separate(letters) == ["-" + letters[..1]] + Separate(letters[1..])
  {
    assert "-" + letters[..1] == ['-', letters[0]];
  }

  /** Only the last letter may take an argument, and none is a dash. */
  predicate Separable(letters: string, spec: string) {
    forall i :: 0 <= i < |letters| ==> letters[i] != '-' && (i + 1 < |letters| ==> !TakesArgument(spec, letters[i]))
  }

  /** A token `-xyz` means what the tokens `-x -y -z` mean. */
  lemma {:induction false} ClusterLaw(letters: string, rest: seq<string>, spec: string, arg: Option<string>)
    requires letters != "" && Separable(letters, spec)
    ensures Parse(["-" + letters] + rest, spec, arg) == Parse(Separate(letters) + rest, spec, arg)
    decreases |letters|
  {
    var c, more := letters[0], letters[1..];
    OneToken(letters, rest, spec, arg);
    assert letters[..1] == [c];
    OneToken([c], Separate(more) + rest, spec, arg);
    SeparateFirst(letters);
    assert Separate(letters) + rest == ["-" + [c]] + (Separate(more) + rest);
    if more == "" {
      assert Separate(more) + rest == rest;
      assert letters == [c];
    } else {
      var arg' := if Known(spec, c) then None else arg;
      ClusterLaw(more, rest, spec, arg');
      OneToken(more, rest, spec, arg');
      assert [c][1..] == "";
    }
  }

  lemma OneToken(letters: string, rest: seq<string>, spec: string, arg: Option<string>)
    requires letters != "" && letters != "-"
    ensures Parse(["-" + letters] + rest, spec, arg) == ParseLetters(letters, rest, spec, arg)
  {
    var token := "-" + letters;
    assert token[1..] == letters && token[1] == letters[0];
    assert ([token] + rest)[1..] == rest;
  }

  lemma AfterInjective(o: Outcome, p: Parsed, q: Parsed)
    requires p != q
    ensures After(o, p) != After(o, q)
  {
    assert After(o, p).options[1..] == p.options && After(o, q).options[1..] == q.options;
  }

  /** A cluster that breaks the rule means something else: the first letter that breaks it yields something else. */
  lemma {:induction false} ClusterDiffers(letters: string, rest: seq<string>, spec: string, arg: Option<string>)
    requires letters != "" && !Separable(letters, spec)
    ensures ParseLetters(letters, rest, spec, arg) != Parse(Separate(letters) + rest, spec, arg)
    decreases |letters|
  {
    hide Known, Position;
    var c, more := letters[0], letters[1..];
    var tail := Separate(more) + rest;
    SeparateFirst(letters);
    assert letters[..1] == [c];
    assert Separate(letters) + rest == ["-" + [c]] + tail;
    assert ([['-', c]] + tail)[1..] == tail;
    if c == '-' {
      assert Parse(Separate(letters) + rest, spec, arg) == Parsed([], tail);
    } else if more == "" {
    } else {
      OneToken([c], tail, spec, arg);
      if TakesArgument(spec, c) {
        assert tail[0] == ['-', more[0]];
        assert ParseLetters(letters, rest, spec, arg).options[0].message == AttachedArgument;
        assert ParseLetters([c], tail, spec, arg).options[0].message == Quiet;
      } else {
        assert [c][1..] == "";
        var arg' := if Known(spec, c) then None else arg;
        var o := if Known(spec, c) then Outcome(c, None, c, Quiet) else Outcome('?', arg, c, IllegalOption);
        ClusterDiffers(more, rest, spec, arg');
        AfterInjective(o, ParseLetters(more, rest, spec, arg'), Parse(tail, spec, arg'));
        assert ParseLetters([c], tail, spec, arg) == After(o, Parse(tail, spec, arg'));
      }
    }
  }

  /** Grouping letters behind one dash changes nothing exactly when the rule is kept. */
  lemma ClusterEquivalence(letters: string, rest: seq<string>, spec: string, arg: Option<string>)
    requires |letters| >= 2
    ensures Parse(["-" + letters] + rest, spec, arg) == Parse(Separate(letters) + rest, spec, arg)
       <==> Separable(letters, spec)
  {
    OneToken(letters, rest, spec, arg);
    if Separable(letters, spec) {
      ClusterLaw(letters, rest, spec, arg);
    } else {
      ClusterDiffers(letters, rest, spec, arg);
    }
  }

  /** With `x` taking an argument, `-xy` is an error while `-x -y` gives `x` the argument `-y`. */
  lemma ArgumentInsideCluster()
    ensures Parse(["-xy"], "x:y", None) == Parsed([Outcome('?', None, 'x', AttachedArgument)], [])
    ensures Parse(["-x", "-y"], "x:y", None) == Parsed([Outcome('x', Some("-y"), 'x', Quiet)], [])
  {
    var spec := "x:y";
    assert Position(spec, 'x') == 0 && TakesArgument(spec, 'x');
    OneToken("xy", [], spec, None);
    assert "-" + "xy" == "-xy" && ["-xy"] + [] == ["-xy"];
    OneToken("x", ["-y"], spec, None);
    assert "-" + "x" == "-x" && ["-x"] + ["-y"] == ["-x", "-y"];
  }

  // ---- Option strings, and what is wrong with a token.

  /** An option letter, and whether it takes an argument. */
  datatype Decl = Decl(letter: char, takes: bool)

  /** Each letter, followed by a colon if it takes an argument. */
  function OptString(ds: seq<Decl>): string {
    if ds == [] then "" else [ds[0].letter] + (if ds[0].takes then ":" else "") + OptString(ds[1..])
  }

  /** No letter is declared twice, and none is the colon. */
  predicate Proper(ds: seq<Decl>) {
    && (forall i :: 0 <= i < |ds| ==> ds[i].letter != ':')
    && forall i, j :: 0 <= i < j < |ds| ==> ds[i].letter != ds[j].letter
  }

  /** A letter takes an argument exactly when a colon follows its first occurrence. */
  lemma {:induction false} TakesArgumentMeans(pre: string, c: char, post: string)
    requires c !in pre
    ensures Known(pre + [c] + post, c)
    ensures TakesArgument(pre + [c] + post, c) <==> post != "" && post[0] == ':'
  {
    var spec := pre + [c] + post;
    assert spec[|pre|] == c;
    PositionIs(spec, c, |pre|);
    if post != "" {
      assert spec[|pre| + 1] == post[0];
    }
  }

  lemma PositionIs(spec: string, c: char, p: nat)
    requires p < |spec| && spec[p] == c && c !in spec[..p]
    ensures Known(spec, c) && Position(spec, c) == p
  {
    assert forall q :: 0 <= q < p ==> spec[q] == spec[..p][q];
  }

  lemma {:induction false} LettersOf(ds: seq<Decl>, c: char)
    requires c != ':'
    ensures c in OptString(ds) <==> exists i :: 0 <= i < |ds| && ds[i].letter == c
  {
    if ds != [] {
      LettersOf(ds[1..], c);
      assert forall i :: 0 <= i < |ds| - 1 ==> ds[1..][i] == ds[i + 1];
      assert ds[0].letter == c || (exists i :: 0 <= i < |ds| - 1 && ds[1..][i].letter == c)
        <==> exists i :: 0 <= i < |ds| && ds[i].letter == c by {
        if i :| 0 <= i < |ds| && ds[i].letter == c {
          assert i == 0 || ds[1..][i - 1].letter == c;
        }
      }
    }
  }

  /** A letter of a proper declaration takes an argument exactly when it is declared to. */
  lemma {:induction false} Declared(ds: seq<Decl>, i: nat)
    requires Proper(ds) && i < |ds|
    ensures Known(OptString(ds), ds[i].letter)
    ensures TakesArgument(OptString(ds), ds[i].letter) <==> ds[i].takes
  {
    var pre, post := OptString(ds[..i]), (if ds[i].takes then ":" else "") + OptString(ds[i + 1..]);
    OptStringJoin(ds[..i], ds[i..]);
    assert ds == ds[..i] + ds[i..] && ds[i..][1..] == ds[i + 1..];
    assert OptString(ds) == pre + [ds[i].letter] + post;
    LettersOf(ds[..i], ds[i].letter);
    NoColonFirst(ds[i + 1..]);
    TakesArgumentMeans(pre, ds[i].letter, post);
  }

  lemma {:induction false} OptStringJoin(a: seq<Decl>, b: seq<Decl>)
    ensures OptString(a + b) == OptString(a) + OptString(b)
  {
    if a == [] {
      assert a + b == b;
    } else {
      OptStringJoin(a[1..], b);
      assert (a + b)[0] == a[0] && (a + b)[1..] == a[1..] + b;
      JoinAssociates([a[0].letter] + (if a[0].takes then ":" else ""), OptString(a[1..]), OptString(b));
    }
  }

  lemma JoinAssociates(a: string, b: string, c: string)
    ensures a + (b + c) == a + b + c
  {
  }

  lemma NoColonFirst(ds: seq<Decl>)
    requires forall i :: 0 <= i < |ds| ==> ds[i].letter != ':'
    ensures OptString(ds) != "" ==> OptString(ds)[0] != ':'
  {
  }

  /** A token without a dash, or a dash alone, ends the options, and `--` does and is skipped; any other is a cluster. */
  lemma TokenMeans(t: string, rest: seq<string>, spec: string, arg: Option<string>)
    ensures |t| < 2 || t[0] != '-' ==> Parse([t] + rest, spec, arg) == Parsed([], [t] + rest)
    ensures t == "--" ==> Parse([t] + rest, spec, arg) == Parsed([], rest)
    ensures |t| >= 2 && t[0] == '-' && t != "--" ==>
      var p := Parse([t] + rest, spec, arg);
      |p.options| > 0 && p.options[0].optopt == t[1]
  {
    assert ([t] + rest)[0] == t && ([t] + rest)[1..] == rest;
  }

  /** A letter that is not declared is reported, and parsing goes on behind it. */
  lemma UnknownLetter(ds: seq<Decl>, c: char, rest: seq<string>, arg: Option<string>)
    requires c != '-' && c != ':' && forall i :: 0 <= i < |ds| ==> ds[i].letter != c
    ensures Parse(["-" + [c]] + rest, OptString(ds), arg)
         == After(Outcome('?', arg, c, IllegalOption), Parse(rest, OptString(ds), arg))
  {
    LettersOf(ds, c);
    OneToken([c], rest, OptString(ds), arg);
    assert [c][1..] == "";
  }

  /** A letter that takes an argument is reported when it is the last token, or when its own token goes on. */
  lemma WrongArgument(ds: seq<Decl>, i: nat, more: string, rest: seq<string>, arg: Option<string>)
    requires Proper(ds) && i < |ds| && ds[i].takes && ds[i].letter != '-'
    ensures Parse(["-" + [ds[i].letter]], OptString(ds), arg)
         == Parsed([Outcome('?', arg, ds[i].letter, MissingArgument)], [])
    ensures more != "" ==>
      Parse(["-" + ([ds[i].letter] + more)] + rest, OptString(ds), arg)
        == After(Outcome('?', arg, ds[i].letter, AttachedArgument), Parse(rest, OptString(ds), arg))
  {
    hide Known, TakesArgument;
    var c, spec := ds[i].letter, OptString(ds);
    Declared(ds, i);
    OneToken([c], [], spec, arg);
    assert ["-" + [c]] + [] == ["-" + [c]];
    if more != "" {
      OneToken([c] + more, rest, spec, arg);
    }
  }

  // ---- Writing options down and parsing them back.

  datatype Choice = Flag(c: char) | Setting(c: char, value: string)

  predicate Allowed(spec: string, o: Choice) {
    o.c != '-' && Known(spec, o.c) && (TakesArgument(spec, o.c) <==> o.Setting?)
  }

  function Written(choices: seq<Choice>): (tokens: seq<string>) {
    if choices == [] then []
    else (if choices[0].Flag? then [['-', choices[0].c]] else [['-', choices[0].c], choices[0].value]) + Written(choices[1..])
  }

  function Yields(o: Choice): Outcome {
    Outcome(o.c, if o.Flag? then None else Some(o.value), o.c, Quiet)
  }

  function YieldsAll(choices: seq<Choice>): (r: seq<Outcome>)
    ensures |r| == |choices| && forall i :: 0 <= i < |choices| ==> r[i] == Yields(choices[i])
  {
    seq(|choices|, i requires 0 <= i < |choices| => Yields(choices[i]))
  }

  /** Options written down come back one for one, and the parser goes on with what follows. */
  lemma {:induction false} WrittenParses(choices: seq<Choice>, tail: seq<string>, spec: string, arg: Option<string>)
    requires forall i :: 0 <= i < |choices| ==> Allowed(spec, choices[i])
    ensures var p := Parse(Written(choices) + tail, spec, arg);
            exists arg' :: p == Parsed(YieldsAll(choices) + Parse(tail, spec, arg').options, Parse(tail, spec, arg').operands)
  {
    hide Known, TakesArgument, Parse;
    if choices == [] {
      assert Written(choices) + tail == tail;
      var p := Parse(tail, spec, arg);
      assert p == Parsed(YieldsAll(choices) + p.options, p.operands);
    } else {
      var o, more := choices[0], Written(choices[1..]) + tail;
      var arg' := if o.Flag? then None else Some(o.value);
      WrittenParses(choices[1..], tail, spec, arg');
      WrittenFirst(choices, tail, spec, arg);
      var arg'' :| Parse(more, spec, arg') == Parsed(YieldsAll(choices[1..]) + Parse(tail, spec, arg'').options, Parse(tail, spec, arg'').operands);
      assert YieldsAll(choices) == [Yields(o)] + YieldsAll(choices[1..]);
      assert Parse(Written(choices) + tail, spec, arg)
          == Parsed(YieldsAll(choices) + Parse(tail, spec, arg'').options, Parse(tail, spec, arg'').operands);
    }
  }

  lemma WrittenFirst(choices: seq<Choice>, tail: seq<string>, spec: string, arg: Option<string>)
    requires choices != [] && Allowed(spec, choices[0])
    ensures Parse(Written(choices) + tail, spec, arg)
         == After(Yields(choices[0]), Parse(Written(choices[1..]) + tail, spec, Yields(choices[0]).optarg))
  {
    hide Known, TakesArgument;
    var o, more := choices[0], Written(choices[1..]) + tail;
    var rest := if o.Flag? then more else [o.value] + more;
    assert "-" + [o.c] == ['-', o.c];
    assert Written(choices) + tail == ["-" + [o.c]] + rest;
    OneToken([o.c], rest, spec, arg);
    assert [o.c][1..] == "";
    if o.Setting? {
      assert rest[1..] == more;
    }
  }

  /** The options that a declaration allows: flags without, settings with an argument. */
  predicate Matches(ds: seq<Decl>, o: Choice) {
    o.c != '-' && exists i :: 0 <= i < |ds| && ds[i] == Decl(o.c, o.Setting?)
  }

  /**
    Options that an option string declares, written down, come back one for one. Behind `--` everything is an
    operand, dashes or not; without it, options end at the first token that is none.
   */
  lemma RoundTrip(ds: seq<Decl>, choices: seq<Choice>, operands: seq<string>, arg: Option<string>)
    requires Proper(ds) && forall i :: 0 <= i < |choices| ==> Matches(ds, choices[i])
    ensures Parse(Written(choices) + (["--"] + operands), OptString(ds), arg) == Parsed(YieldsAll(choices), operands)
    ensures operands == [] || |operands[0]| < 2 || operands[0][0] != '-' ==>
      Parse(Written(choices) + operands, OptString(ds), arg) == Parsed(YieldsAll(choices), operands)
  {
    hide Known, TakesArgument, Written;
    forall i | 0 <= i < |choices| ensures Allowed(OptString(ds), choices[i]) {
      var j :| 0 <= j < |ds| && ds[j] == Decl(choices[i].c, choices[i].Setting?);
      Declared(ds, j);
    }
    WrittenParses(choices, ["--"] + operands, OptString(ds), arg);
    assert (["--"] + operands)[1..] == operands;
    assert YieldsAll(choices) + [] == YieldsAll(choices);
    if operands == [] || !OptionLike(operands[0]) {
      WrittenParses(choices, operands, OptString(ds), arg);
    }
  }
}
