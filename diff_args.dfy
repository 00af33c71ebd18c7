/** The command-line handling of h5diff: the checks on the arguments of -n,
    -p and -d, and the defaulting of the option record and the reading of
    the positional file and object names.

    Option scanning itself (get_option) is outside the model: the options
    arrive already split, each with its argument text and, for -d and -p,
    the number atof makes of that text. */
module DiffArgs {
  import opened Common

  // -----------------------------------------------------------------------
  // check_n_input
  // -----------------------------------------------------------------------

  predicate IsDigit(c: char)
  {
    '0' <= c <= '9'
  }

  /** The text check_n_input accepts: a first character 1-9 and digits after
      it.  The empty text passes, since no character is examined. */
  predicate ValidCount(s: seq<char>)
  {
    |s| == 0 || ('1' <= s[0] <= '9' && forall i :: 1 <= i < |s| ==> IsDigit(s[i]))
  }

  /** check_n_input: 1 when the text passes, -1 at the first character that
      does not. */
  method CheckNInput(s: seq<char>) returns (r: int)
    ensures r == (if ValidCount(s) then 1 else -1)
  {
    var i := 0;
    while i < |s|
      invariant 0 <= i <= |s|
      invariant i > 0 ==> '1' <= s[0] <= '9'
      invariant forall k :: 1 <= k < i ==> IsDigit(s[k])
    {
      var c := s[i];
      if i == 0 {
        if c < '1' || c > '9' {
          return -1;
        }
      } else if c < '0' || c > '9' {
        return -1;
      }
      i := i + 1;
    }
    return 1;
  }

  /** LONG_MAX of a 64-bit long. */
  const LongMax: nat := 0x7FFF_FFFF_FFFF_FFFF

  /** The value a text of decimal digits spells. */
  function DecimalValue(s: seq<char>): nat
    requires forall i :: 0 <= i < |s| ==> IsDigit(s[i])
  {
    if |s| == 0 then 0
    else DecimalValue(s[..|s| - 1]) * 10 + DigitValue(s[|s| - 1])
  }

  /** The value atol gives a text of decimal digits: the number it spells,
      held at LONG_MAX when it does not fit a long. */
  function AtolValue(s: seq<char>): (v: nat)
    requires forall i :: 0 <= i < |s| ==> IsDigit(s[i])
    ensures v <= LongMax
    ensures v == DecimalValue(s) || (v == LongMax && DecimalValue(s) > LongMax)
  {
    var x := DecimalValue(s);
    if x > LongMax then LongMax else x
  }

  function DigitValue(c: char): (v: nat)
    requires IsDigit(c)
    ensures v < 10
  {
    (c as int) - ('0' as int)
  }

  /** The canonical decimal text of a positive number. */
  function Decimal(n: nat): (s: seq<char>)
    requires n >= 1
    ensures |s| >= 1 && forall i :: 0 <= i < |s| ==> IsDigit(s[i])
    decreases n
  {
    var last := (n % 10 + '0' as int) as char;
    if n < 10 then [last] else Decimal(n / 10) + [last]
  }

  /** Every positive number's decimal text passes, and reads back as that
      number. */
  lemma {:induction false} DecimalPasses(n: nat)
    requires n >= 1
    ensures ValidCount(Decimal(n))
    ensures DecimalValue(Decimal(n)) == n
    decreases n
  {
    var s := Decimal(n);
    if n >= 10 {
      DecimalPasses(n / 10);
      assert s[..|s| - 1] == Decimal(n / 10);
      assert s[0] == Decimal(n / 10)[0];
    }
  }

  /** Every non-empty text that passes is the canonical decimal text of a
      positive number: the one atol reads from it. */
  lemma {:induction false} PassingTextIsDecimal(s: seq<char>)
    requires |s| >= 1 && ValidCount(s)
    ensures forall i :: 0 <= i < |s| ==> IsDigit(s[i])
    ensures DecimalValue(s) >= 1
    ensures Decimal(DecimalValue(s)) == s
    decreases |s|
  {
    var last := s[|s| - 1];
    var digit := DigitValue(last);
    if |s| == 1 {
      assert DecimalValue(s) == DecimalValue(s[..0]) * 10 + digit;
    } else {
      var front := s[..|s| - 1];
      assert front[0] == s[0];
      PassingTextIsDecimal(front);
      var v := DecimalValue(front);
      assert DecimalValue(s) == v * 10 + digit;
      assert (v * 10 + digit) / 10 == v && (v * 10 + digit) % 10 == digit;
      assert s == front + [last];
    }
  }

  // -----------------------------------------------------------------------
  // check_p_input and check_d_input
  // -----------------------------------------------------------------------

  /** A hexadecimal-looking text: longer than two characters and starting
      with "0x". */
  predicate HexPrefixed(s: seq<char>)
  {
    |s| > 2 && s[0] == '0' && s[1] == 'x'
  }

  /** The check shared by -p and -d: a hexadecimal-looking text fails before
      its number is looked at; otherwise a negative number fails. */
  function CheckRealInput(s: seq<char>, atofValue: real): (r: int)
    ensures r == 1 || r == -1
    ensures HexPrefixed(s) ==> r == -1
    ensures r == 1 <==> !HexPrefixed(s) && atofValue >= 0.0
  {
    if HexPrefixed(s) then -1
    else if atofValue < 0.0 then -1
    else 1
  }

  // -----------------------------------------------------------------------
  // parse_command_line
  // -----------------------------------------------------------------------

  /** One option as get_option hands it over: its letter, its argument text
      and, for -d and -p, the number atof reads from that text. */
  datatype Opt = Opt(letter: char, arg: seq<char>, atofValue: real)

  /** The yes/no members of the option record that an option can only
      switch on. */
  datatype Switch = Verbose | Quiet | Report | FollowLinks | NoDangleLinks | ListNotCmp | UseSystemEpsilon

  /** The option record; `on` holds the switches that are set. */
  datatype DiffOpts = DiffOpts(
    on: set<Switch>, d: bool, delta: real, p: bool, percent: real, n: bool, count: nat,
    doNans: bool, contents: bool)

  /** The record after memset to zero and the two defaults. */
  const InitialOpts: DiffOpts := DiffOpts({}, false, 0.0, false, 0.0, false, 0, true, true)

  datatype ExitCode = ExitSuccess | ExitFailure

  datatype Step = Continue(opts: DiffOpts) | Exit(code: ExitCode)

  /** The options that only set a flag. */
  function SetFlag(o: DiffOpts, letter: char): Option<DiffOpts>
  {
    match letter
    case 'v' => Some(o.(on := o.on + {Verbose}))
    case 'q' => Some(o.(on := o.on + {Quiet}))
    case 'r' => Some(o.(on := o.on + {Report}))
    case 'l' => Some(o.(on := o.on + {FollowLinks}))
    case 'x' => Some(o.(on := o.on + {NoDangleLinks}))
    case 'N' => Some(o.(doNans := false))
    case 'c' => Some(o.(on := o.on + {ListNotCmp}))
    case 'e' => Some(o.(on := o.on + {UseSystemEpsilon}))
    case _ => None
  }

  /** The options with an argument: a failed check is a failure exit; a
      tolerance of 0 is the same as none. */
  function SetValue(o: DiffOpts, opt: Opt): Step
    requires opt.letter in {'d', 'p', 'n'}
  {
    if opt.letter == 'd' then
      if CheckRealInput(opt.arg, opt.atofValue) == -1 then Exit(ExitFailure)
      else Continue(o.(d := opt.atofValue != 0.0, delta := opt.atofValue))
    else if opt.letter == 'p' then
      if CheckRealInput(opt.arg, opt.atofValue) == -1 then Exit(ExitFailure)
      else Continue(o.(p := opt.atofValue != 0.0, percent := opt.atofValue))
    else
      if !ValidCount(opt.arg) then Exit(ExitFailure)
      else Continue(o.(n := true, count := AtolValue(opt.arg)))
  }

  /** What one option does to the record: -h and -V, and only they, end
      with success, an unknown letter with failure; no option changes the
      contents flag or clears a switch. */
  function ApplyOption(o: DiffOpts, opt: Opt): (r: Step)
    ensures r == Exit(ExitSuccess) <==> opt.letter == 'h' || opt.letter == 'V'
    ensures r.Continue? ==> r.opts.contents == o.contents && o.on <= r.opts.on
  {
    if opt.letter == 'h' || opt.letter == 'V' then Exit(ExitSuccess)
    else if opt.letter in {'d', 'p', 'n'} then SetValue(o, opt)
    else if SetFlag(o, opt.letter).Some? then Continue(SetFlag(o, opt.letter).value)
    else Exit(ExitFailure)
  }

  /** The options applied in order, stopping at the first that exits. */
  function ApplyOptions(o: DiffOpts, opts: seq<Opt>): Step
    decreases |opts|
  {
    if |opts| == 0 then Continue(o)
    else
      match ApplyOption(o, opts[0])
      case Exit(code) => Exit(code)
      case Continue(o2) => ApplyOptions(o2, opts[1..])
  }

  datatype Parsed =
    | Usage(code: ExitCode)
    | Names(opts: DiffOpts, fname1: seq<char>, fname2: seq<char>,
            objname1: Option<seq<char>>, objname2: Option<seq<char>>)

  /** The whole of parse_command_line as a value.  Names are read only
      after every option went through, the file names are the first two
      positional arguments, and -e leaves neither -d nor -p in effect. */
  function ParseSpec(opts: seq<Opt>, positional: seq<seq<char>>): (r: Parsed)
    ensures r.Names? ==> && ApplyOptions(InitialOpts, opts).Continue?
                         && |positional| >= 2
                         && r.fname1 == positional[0] && r.fname2 == positional[1]
    ensures r.Names? && UseSystemEpsilon in r.opts.on ==> !r.opts.d && !r.opts.p
  {
    match ApplyOptions(InitialOpts, opts)
    case Exit(code) => Usage(code)
    case Continue(o) =>
      var o2 := if UseSystemEpsilon in o.on then o.(d := false, p := false) else o;
      if |positional| < 2 then Usage(ExitFailure)
      else
        var obj1 := if |positional| >= 3 then Some(positional[2]) else None;
        var obj2 := if obj1.None? then None
                    else if |positional| >= 4 then Some(positional[3])
                    else obj1;
        Names(o2, positional[0], positional[1], obj1, obj2)
  }

  /** The body of the option switch for one option. */
  method ApplyOne(o: DiffOpts, opt: Opt) returns (step: Step)
    ensures step == ApplyOption(o, opt)
  {
    match opt.letter {
      case 'h' => return Exit(ExitSuccess);
      case 'V' => return Exit(ExitSuccess);
      case 'd' => step := ApplyValued(o, opt);
      case 'p' => step := ApplyValued(o, opt);
      case 'n' => step := ApplyValued(o, opt);
      case _ =>
        var flagged := SetFlag(o, opt.letter);
        if flagged.None? {
          return Exit(ExitFailure);
        }
        step := Continue(flagged.value);
    }
  }

  /** The -d, -p and -n cases of the switch: set the flag, check the
      argument, store its value, and drop a zero tolerance. */
  method ApplyValued(o: DiffOpts, opt: Opt) returns (step: Step)
    requires opt.letter in {'d', 'p', 'n'}
    ensures step == SetValue(o, opt)
  {
    if opt.letter == 'd' {
      var d := true;
      if CheckRealInput(opt.arg, opt.atofValue) == -1 {
        return Exit(ExitFailure);
      }
      var delta := opt.atofValue;
      if delta == 0.0 {
        d := false;
      }
      step := Continue(o.(d := d, delta := delta));
    } else if opt.letter == 'p' {
      var p := true;
      if CheckRealInput(opt.arg, opt.atofValue) == -1 {
        return Exit(ExitFailure);
      }
      var percent := opt.atofValue;
      if percent == 0.0 {
        p := false;
      }
      step := Continue(o.(p := p, percent := percent));
    } else {
      var ok := CheckNInput(opt.arg);
      if ok == -1 {
        return Exit(ExitFailure);
      }
      step := Continue(o.(n := true, count := AtolValue(opt.arg)));
    }
  }

  /** parse_command_line: zero the record, set the defaults, apply the
      options one by one, clear -d and -p under -e, then read the names. */
  method ParseCommandLine(opts: seq<Opt>, positional: seq<seq<char>>) returns (r: Parsed)
    ensures r == ParseSpec(opts, positional)
  {
    var o := InitialOpts;
    var k := 0;
    while k < |opts|
      invariant 0 <= k <= |opts|
      invariant ApplyOptions(InitialOpts, opts) == ApplyOptions(o, opts[k..])
    {
      var step := ApplyOne(o, opts[k]);
      if step.Exit? {
        return Usage(step.code);
      }
      assert opts[k..][1..] == opts[k + 1..];
      o := step.opts;
      k := k + 1;
    }
    if UseSystemEpsilon in o.on {
      o := o.(d := false, p := false);
    }
    if |positional| < 2 {
      return Usage(ExitFailure);
    }
    var objname1 := if |positional| >= 3 then Some(positional[2]) else None;
    if objname1.None? {
      return Names(o, positional[0], positional[1], None, None);
    }
    var objname2 := if |positional| >= 4 then Some(positional[3]) else objname1;
    r := Names(o, positional[0], positional[1], objname1, objname2);
  }

  /** With no options the record holds only the two defaults: equal
      contents assumed and NaNs handled. */
  lemma Defaults(f1: seq<char>, f2: seq<char>)
    ensures ParseSpec([], [f1, f2]) == Names(InitialOpts, f1, f2, None, None)
    ensures InitialOpts.contents && InitialOpts.doNans && InitialOpts.on == {}
    ensures !InitialOpts.d && !InitialOpts.p && !InitialOpts.n && InitialOpts.count == 0
  {
  }

  /** Options never touch the contents flag, and -e is never undone. */
  lemma {:induction false} OptionsKeepContents(o: DiffOpts, opts: seq<Opt>)
    ensures ApplyOptions(o, opts).Continue? ==> ApplyOptions(o, opts).opts.contents == o.contents
    ensures ApplyOptions(o, opts).Continue? && UseSystemEpsilon in o.on ==>
              UseSystemEpsilon in ApplyOptions(o, opts).opts.on
    decreases |opts|
  {
    if |opts| > 0 {
      match ApplyOption(o, opts[0])
      case Exit(_) =>
      case Continue(o2) => OptionsKeepContents(o2, opts[1..]);
    }
  }

  /** -e wins over -d and -p, wherever it appears. */
  lemma EpsilonClearsTolerances(opts: seq<Opt>, positional: seq<seq<char>>)
    requires ParseSpec(opts, positional).Names?
    requires UseSystemEpsilon in ApplyOptions(InitialOpts, opts).opts.on
    ensures !ParseSpec(opts, positional).opts.d && !ParseSpec(opts, positional).opts.p
  {
  }

  /** Fewer than two names is a failure exit; the second object name is
      absent exactly when the first is, and defaults to the first. */
  lemma PositionalNames(opts: seq<Opt>, positional: seq<seq<char>>)
    requires ApplyOptions(InitialOpts, opts).Continue?
    ensures |positional| < 2 <==> ParseSpec(opts, positional) == Usage(ExitFailure)
    ensures var r := ParseSpec(opts, positional);
            r.Names? ==>
              && r.fname1 == positional[0] && r.fname2 == positional[1]
              && (r.objname1.None? <==> r.objname2.None?)
              && (|positional| == 3 ==> r.objname2 == r.objname1 == Some(positional[2]))
              && (|positional| >= 4 ==> r.objname2 == Some(positional[3]))
  {
  }

  /** An -n, -d or -p option whose argument fails its check ends the parse
      with a failure exit, unless an earlier option already ended it. */
  lemma {:induction false} BadArgumentExits(o: DiffOpts, opts: seq<Opt>, k: nat)
    requires k < |opts|
    requires var opt := opts[k];
             || (opt.letter == 'n' && !ValidCount(opt.arg))
             || (opt.letter in {'d', 'p'} && HexPrefixed(opt.arg))
    ensures ApplyOptions(o, opts).Exit?
    ensures (forall i :: 0 <= i < k ==> opts[i].letter !in {'h', 'V'}) ==>
              ApplyOptions(o, opts) == Exit(ExitFailure)
    decreases k
  {
    if k > 0 {
      match ApplyOption(o, opts[0])
      case Exit(_) =>
      case Continue(o2) =>
        assert opts[1..][k - 1] == opts[k];
        if forall i :: 0 <= i < k ==> opts[i].letter !in {'h', 'V'} {
          assert forall i :: 0 <= i < k - 1 ==> opts[1..][i] == opts[i + 1];
        }
        BadArgumentExits(o2, opts[1..], k - 1);
    }
  }

  /** An accepted -n argument sets the count to the number it spells when
      that fits a long, and to LONG_MAX otherwise. */
  lemma CountOption(o: DiffOpts, arg: seq<char>)
    requires |arg| >= 1 && ValidCount(arg)
    ensures ApplyOption(o, Opt('n', arg, 0.0)).Continue?
    ensures 1 <= ApplyOption(o, Opt('n', arg, 0.0)).opts.count <= LongMax
    ensures ApplyOption(o, Opt('n', arg, 0.0)).opts.count < LongMax ==>
              Decimal(ApplyOption(o, Opt('n', arg, 0.0)).opts.count) == arg
    ensures forall i :: 0 <= i < |arg| ==> IsDigit(arg[i])
    ensures ApplyOption(o, Opt('n', arg, 0.0)).opts.count == LongMax <==> DecimalValue(arg) >= LongMax
  {
    PassingTextIsDecimal(arg);
  }

  /** -d and -p: the option goes through exactly when its text is not
      hexadecimal-looking and its number is not negative, so a negative
      tolerance is a failure exit; a tolerance of 0 leaves the comparison
      without that tolerance, any other value turns it on, and nothing else
      in the record changes. */
  lemma ToleranceOption(o: DiffOpts, letter: char, arg: seq<char>, v: real)
    requires letter in {'d', 'p'}
    ensures ApplyOption(o, Opt(letter, arg, v)).Continue? <==> !HexPrefixed(arg) && v >= 0.0
    ensures v < 0.0 ==> ApplyOption(o, Opt(letter, arg, v)) == Exit(ExitFailure)
    ensures letter == 'd' && ApplyOption(o, Opt(letter, arg, v)).Continue? ==>
              ApplyOption(o, Opt(letter, arg, v)).opts == o.(d := v != 0.0, delta := v)
    ensures letter == 'p' && ApplyOption(o, Opt(letter, arg, v)).Continue? ==>
              ApplyOption(o, Opt(letter, arg, v)).opts == o.(p := v != 0.0, percent := v)
  {
  }
}
