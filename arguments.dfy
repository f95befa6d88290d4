/**
 * Command line arguments: every argument must match `--([a-z\-]+)(=.+)?`;
 * the arguments are collected into a map from key to the values given for
 * that key, in argument order, and the accessors look keys up in that map.
 */
module Arguments {

  import opened Wrappers

  type ArgMap = map<string, seq<string>>

  const P_NET: string := "net"
  const P_DATA: string := "data"
  const P_DISCOVERY: string := "discovery"

  /** The exceptions the source throws. */
  datatype ArgError =
    | CannotParse(arg: string)   // IllegalStateException from asMap
    | Absent(name: string)       // IllegalStateException from an accessor
    | NoValue(name: string)      // IndexOutOfBoundsException from get(0) on an empty list

  /** The message of an IllegalStateException. */
  function Message(e: ArgError): (m: string)
    requires !e.NoValue?
    ensures e.CannotParse? ==>
              |m| == 29 + |e.arg| && m[0] == 'c' && m[28..|m| - 1] == e.arg
              && m[27] == '\'' && m[|m| - 1] == '\''
    ensures e.Absent? ==> |m| == 41 + |e.name| && m[0] == 'R' && m[31..|m| - 10] == e.name
  {
    match e
    case CannotParse(arg) => "can't parse this argument: '" + arg + "'"
    case Absent(name) => "Required command line argument " + name + " is absent"
  }

  /** Two failures with the same message are the same failure. */
  lemma MessageIdentifiesError(e1: ArgError, e2: ArgError)
    requires !e1.NoValue? && !e2.NoValue?
    ensures Message(e1) == Message(e2) <==> e1 == e2
  {
    if Message(e1) == Message(e2) {
      var m := Message(e1);
      if e1.CannotParse? {
        assert e2.CannotParse? && e1.arg == m[28..|m| - 1] == e2.arg;
      } else {
        assert e2.Absent? && e1.name == m[31..|m| - 10] == e2.name;
      }
    }
  }

  /** A character of the class `[a-z\-]`. */
  predicate IsKeyChar(c: char)
  {
    'a' <= c <= 'z' || c == '-'
  }

  /** The characters that `.` does not match in a Java pattern without flags. */
  predicate IsLineTerminator(c: char)
  {
    c == '\n' || c == '\r' || c == '\U{0085}' || c == '\U{2028}' || c == '\U{2029}'
  }

  /** One parsed argument: its key and, when `=value` was given, the value. */
  datatype Arg = Arg(key: string, value: Option<string>)

  predicate ValidKey(k: string)
  {
    |k| >= 1 && forall i :: 0 <= i < |k| ==> IsKeyChar(k[i])
  }

  predicate ValidValue(v: string)
  {
    |v| >= 1 && forall i :: 0 <= i < |v| ==> !IsLineTerminator(v[i])
  }

  predicate ValidArg(a: Arg)
  {
    ValidKey(a.key) && (a.value.Some? ==> ValidValue(a.value.value))
  }

  /** The text of an argument: `--key` or `--key=value`. */
  function Render(a: Arg): string
  {
    "--" + a.key + (if a.value.Some? then "=" + a.value.value else "")
  }

  /** Length of the run of key characters that starts `s`. */
  function KeyRun(s: string): (n: nat)
    ensures n <= |s|
    ensures forall i :: 0 <= i < n ==> IsKeyChar(s[i])
    ensures n < |s| ==> !IsKeyChar(s[n])
  {
    if s == [] || !IsKeyChar(s[0]) then 0 else 1 + KeyRun(s[1..])
  }

  /**
   * Matches `s` as a whole against `--([a-z\-]+)(=.+)?`.  The key class does
   * not contain `=`, so the key is the longest run of key characters after
   * `--` and the first `=` after it starts the value.
   */
  function ParseArg(s: string): (r: Option<Arg>)
    ensures r.Some? ==> ValidArg(r.value)
  {
    if |s| < 2 || s[..2] != "--" then None
    else
      var n := KeyRun(s[2..]);
      if n == 0 then None
      else
        var key, group2 := s[2..2 + n], s[2 + n..];
        if group2 == [] then Some(Arg(key, None))
        else if group2[0] == '=' && ValidValue(group2[1..]) then Some(Arg(key, Some(group2[1..])))
        else None
  }

  lemma KeyRunOfKey(k: string, t: string)
    requires ValidKey(k) && (t == [] || !IsKeyChar(t[0]))
    ensures KeyRun(k + t) == |k|
  {
    var s := k + t;
    assert forall i :: 0 <= i < |k| ==> IsKeyChar(s[i]);
    if |s| > |k| {
      assert s[|k|] == t[0];
    }
  }

  lemma KeyRunStopsAt(s: string, i: int)
    requires 0 <= i < |s| && !IsKeyChar(s[i])
    ensures KeyRun(s) <= i
  {
  }

  /** An argument parses exactly when it is the text of a valid Arg, and then to that Arg. */
  lemma ParseArgIff(s: string, a: Arg)
    ensures ParseArg(s) == Some(a) <==> ValidArg(a) && s == Render(a)
  {
    if ParseArg(s) == Some(a) {
      var n := KeyRun(s[2..]);
      assert a.key == s[2..2 + n];
      assert ValidKey(a.key);
      if a.value.None? {
        assert s == s[..2] + s[2..2 + n] + s[2 + n..];
      } else {
        var group2 := s[2 + n..];
        assert group2 == "=" + a.value.value;
        assert s == s[..2] + s[2..2 + n] + group2;
      }
    }
    if ValidArg(a) && s == Render(a) {
      var tail := if a.value.Some? then "=" + a.value.value else "";
      assert s == "--" + (a.key + tail);
      assert s[..2] == "--" && s[2..] == a.key + tail;
      KeyRunOfKey(a.key, tail);
      assert s[2..2 + |a.key|] == a.key;
      assert s[2 + |a.key|..] == tail;
    }
  }

  /** Every argument that parses is the rendering of what it parses to. */
  lemma ParseArgRoundTrip(s: string)
    requires ParseArg(s).Some?
    ensures ValidArg(ParseArg(s).value) && Render(ParseArg(s).value) == s
  {
    ParseArgIff(s, ParseArg(s).value);
  }

  /** `--key=` with nothing after `=` does not match: the value needs a character. */
  lemma EmptyValueRejected(key: string)
    requires ValidKey(key)
    ensures ParseArg("--" + key + "=") == None
  {
    var s := "--" + key + "=";
    assert s[..2] == "--" && s[2..] == key + "=";
    KeyRunOfKey(key, "=");
    assert s[2 + |key|..] == "=";
  }

  /**
   * A key with a character outside `[a-z\-]`, an upper-case letter or a digit
   * say, does not match, with or without a value.
   */
  lemma BadKeyRejected(key: string, value: Option<string>)
    requires forall j :: 0 <= j < |key| ==> key[j] != '='
    requires !ValidKey(key)
    ensures ParseArg(Render(Arg(key, value))) == None
  {
    var tail := if value.Some? then "=" + value.value else "";
    var u := key + tail;
    var s := "--" + u;
    assert Render(Arg(key, value)) == s;
    assert s[..2] == "--" && s[2..] == u;
    var n := KeyRun(u);
    if key == [] {
      assert u == tail;
    } else if n > 0 {
      var i :| 0 <= i < |key| && !IsKeyChar(key[i]);
      assert u[i] == key[i];
      KeyRunStopsAt(u, i);
      assert s[2 + n..] == u[n..];
      assert u[n..][0] == key[n];
    }
  }

  /**
   * `--key=value` parses to that key and value, whatever the value holds
   * besides line terminators, further `=` signs included: the value is
   * everything after the first `=`, which is dropped.
   */
  lemma ValueAfterFirstEquals(key: string, value: string)
    requires ValidKey(key) && ValidValue(value)
    ensures ParseArg("--" + key + "=" + value) == Some(Arg(key, Some(value)))
  {
    ParseArgIff("--" + key + "=" + value, Arg(key, Some(value)));
    assert Render(Arg(key, Some(value))) == "--" + key + "=" + value;
  }

  /** The sample argument of the unit tests. */
  lemma ParseNetSample()
    ensures ParseArg("--net=test3") == Some(Arg("net", Some("test3")))
  {
    assert ValidKey("net") && ValidValue("test3");
    ValueAfterFirstEquals("net", "test3");
    assert "--" + "net" + "=" + "test3" == "--net=test3";
  }

  /** One parsed argument entered in the map: the key is added, the value appended. */
  function AddArg(m: ArgMap, a: Arg): ArgMap
  {
    var prior := if a.key in m then m[a.key] else [];
    m[a.key := prior + (if a.value.Some? then [a.value.value] else [])]
  }

  lemma AddArgAt(m: ArgMap, a: Arg, key: string)
    ensures key in AddArg(m, a) <==> key in m || key == a.key
    ensures key in AddArg(m, a) ==>
              AddArg(m, a)[key] ==
                if key == a.key
                then (if key in m then m[key] else []) + (if a.value.Some? then [a.value.value] else [])
                else m[key]
  {
  }

  /** What asMap returns: the map of all arguments, or the first one that does not match. */
  function Collect(args: seq<string>): (r: Result<ArgMap, ArgError>)
    ensures r.Err? ==> r.error.CannotParse? && r.error.arg in args && ParseArg(r.error.arg).None?
  {
    if args == [] then Ok(map[])
    else
      match Collect(args[..|args| - 1])
      case Err(e) => Err(e)
      case Ok(m) =>
        match ParseArg(args[|args| - 1])
        case None => Err(CannotParse(args[|args| - 1]))
        case Some(a) => Ok(AddArg(m, a))
  }

  /** Every argument matches the pattern. */
  predicate AllMatch(args: seq<string>)
  {
    forall i :: 0 <= i < |args| ==> ParseArg(args[i]).Some?
  }

  /** The argument matches and carries `key`. */
  predicate Carries(arg: string, key: string)
  {
    ParseArg(arg).Some? && ParseArg(arg).value.key == key
  }

  /** Some argument that matches carries `key`. */
  predicate Mentions(args: seq<string>, key: string)
  {
    args != [] && (Mentions(args[..|args| - 1], key) || Carries(args[|args| - 1], key))
  }

  /** The values given for `key`, in argument order. */
  function ValuesOf(args: seq<string>, key: string): seq<string>
  {
    if args == [] then []
    else
      var p := ParseArg(args[|args| - 1]);
      ValuesOf(args[..|args| - 1], key)
      + (if p.Some? && p.value.key == key && p.value.value.Some? then [p.value.value.value] else [])
  }

  lemma CollectStep(args: seq<string>, i: int)
    requires 0 <= i < |args|
    ensures Collect(args[..i + 1]) ==
              match Collect(args[..i])
              case Err(e) => Err(e)
              case Ok(m) =>
                match ParseArg(args[i])
                case None => Err(CannotParse(args[i]))
                case Some(a) => Ok(AddArg(m, a))
  {
    assert args[..i + 1][..i] == args[..i];
  }

  /** A failure is final: the arguments after the first bad one are never looked at. */
  lemma {:induction false} CollectFailureSettled(args: seq<string>, i: int)
    requires 0 <= i <= |args| && Collect(args[..i]).Err?
    ensures Collect(args) == Collect(args[..i])
  {
    if i < |args| {
      var init := args[..|args| - 1];
      assert init[..i] == args[..i];
      CollectFailureSettled(init, i);
    } else {
      assert args[..i] == args;
    }
  }

  /** Parsing succeeds exactly when every argument matches. */
  lemma {:induction false} CollectSucceedsIff(args: seq<string>)
    ensures Collect(args).Ok? <==> AllMatch(args)
  {
    if args != [] {
      var init := args[..|args| - 1];
      CollectSucceedsIff(init);
      assert forall i :: 0 <= i < |init| ==> init[i] == args[i];
    }
  }

  /** Mentions means some argument carries the key. */
  lemma {:induction false} MentionsSomeArgument(args: seq<string>, key: string)
    ensures Mentions(args, key) <==> exists i :: 0 <= i < |args| && Carries(args[i], key)
  {
    if args != [] {
      var init, last := args[..|args| - 1], args[|args| - 1];
      MentionsSomeArgument(init, key);
      if Mentions(args, key) {
        if Carries(last, key) {
          assert Carries(args[|args| - 1], key);
        } else {
          var i :| 0 <= i < |init| && Carries(init[i], key);
          assert args[i] == init[i];
        }
      } else {
        forall i | 0 <= i < |args|
          ensures !Carries(args[i], key)
        {
          if i < |init| {
            assert args[i] == init[i];
          }
        }
      }
    }
  }

  lemma {:induction false} NoMentionNoValues(args: seq<string>, key: string)
    requires !Mentions(args, key)
    ensures ValuesOf(args, key) == []
  {
    if args != [] {
      NoMentionNoValues(args[..|args| - 1], key);
    }
  }

  /** One key of the parsed map, in terms of the arguments. */
  lemma {:induction false} CollectKey(args: seq<string>, key: string)
    requires Collect(args).Ok?
    ensures key in Collect(args).value <==> Mentions(args, key)
    ensures key in Collect(args).value ==> Collect(args).value[key] == ValuesOf(args, key)
  {
    if args != [] {
      var init, last := args[..|args| - 1], args[|args| - 1];
      CollectKey(init, key);
      var m := Collect(init).value;
      var a := ParseArg(last).value;
      assert Collect(args).value == AddArg(m, a);
      AddArgAt(m, a, key);
      if key !in m {
        NoMentionNoValues(init, key);
      }
      assert ValuesOf(args, key) ==
               ValuesOf(init, key) + (if a.key == key && a.value.Some? then [a.value.value] else []);
    }
  }

  /**
   * Parsing succeeds exactly when every argument matches; then each key of the
   * map is a key some argument carries, even without a value, and it maps to
   * the values given for it, in argument order.
   */
  lemma CollectContents(args: seq<string>)
    ensures Collect(args).Ok? <==> AllMatch(args)
    ensures Collect(args).Ok? ==>
              forall key :: (key in Collect(args).value <==> Mentions(args, key))
                            && (key in Collect(args).value ==> Collect(args).value[key] == ValuesOf(args, key))
  {
    CollectSucceedsIff(args);
    if Collect(args).Ok? {
      forall key
        ensures key in Collect(args).value <==> Mentions(args, key)
        ensures key in Collect(args).value ==> Collect(args).value[key] == ValuesOf(args, key)
      {
        CollectKey(args, key);
      }
    }
  }

  /** On failure, the error names the first argument that does not match. */
  lemma {:induction false} CollectReportsFirstMismatch(args: seq<string>)
    requires Collect(args).Err?
    ensures exists i :: 0 <= i < |args| && AllMatch(args[..i]) && ParseArg(args[i]).None?
                        && Collect(args).error == CannotParse(args[i])
  {
    var init, last := args[..|args| - 1], args[|args| - 1];
    if Collect(init).Err? {
      CollectReportsFirstMismatch(init);
      var i :| 0 <= i < |init| && AllMatch(init[..i]) && ParseArg(init[i]).None?
               && Collect(init).error == CannotParse(init[i]);
      assert init[..i] == args[..i] && init[i] == args[i];
    } else {
      CollectContents(init);
      assert args[..|args| - 1] == init;
    }
  }

  /** Parsing no arguments gives an empty map. */
  lemma CollectEmpty()
    ensures Collect([]) == Ok(map[])
  {
  }

  /**
   * asMap: parses each argument in turn, creating the key's list when it is
   * first seen and appending the value when there is one.
   */
  method AsMap(args: seq<string>) returns (r: Result<ArgMap, ArgError>)
    ensures r == Collect(args)
  {
    var m: ArgMap := map[];
    for i := 0 to |args|
      invariant Collect(args[..i]) == Ok(m)
    {
      CollectStep(args, i);
      var arg := args[i];
      var matched := ParseArg(arg);
      if matched.None? {
        CollectFailureSettled(args, i + 1);
        return Err(CannotParse(arg));
      }
      m := Record(m, matched.value);
    }
    assert args[..|args|] == args;
    r := Ok(m);
  }

  /** One computeIfAbsent step: creates the key's list if needed, then appends the value. */
  method Record(m: ArgMap, arg: Arg) returns (m': ArgMap)
    ensures m' == AddArg(m, arg)
  {
    m' := m;
    if arg.key !in m' {
      m' := m'[arg.key := []];
    }
    if arg.value.Some? {
      m' := m'[arg.key := m'[arg.key] + [arg.value.value]];
    }
    forall k | k in m' || k in AddArg(m, arg)
      ensures k in m' && k in AddArg(m, arg) && m'[k] == AddArg(m, arg)[k]
    {
      AddArgAt(m, arg, k);
    }
  }

  /** The parsed command line, as the Arguments object holds it. */
  datatype Arguments = Arguments(args: ArgMap) {

    /** The first value given for `name`. */
    function First(name: string): (r: Result<string, ArgError>)
      ensures r.Ok? <==> name in args && args[name] != []
      ensures r.Ok? ==> r.value == args[name][0]
      ensures r.Err? ==> r.error == (if name in args then NoValue(name) else Absent(name))
    {
      if name !in args then Err(Absent(name))
      else if args[name] == [] then Err(NoValue(name))
      else Ok(args[name][0])
    }

    /** net(): the first value of `--net`. */
    function Net(): (r: Result<string, ArgError>)
      ensures r.Ok? <==> P_NET in args && args[P_NET] != []
      ensures r.Ok? ==> r.value == args[P_NET][0]
      ensures r == Err(NoValue(P_NET)) <==> P_NET in args && args[P_NET] == []
      ensures P_NET !in args ==>
                r == Err(Absent(P_NET)) && Message(r.error) == "Required command line argument net is absent"
    {
      First(P_NET)
    }

    /** data(): the first value of `--data`. */
    function Data(): (r: Result<string, ArgError>)
      ensures r.Ok? <==> P_DATA in args && args[P_DATA] != []
      ensures r.Ok? ==> r.value == args[P_DATA][0]
      ensures r == Err(NoValue(P_DATA)) <==> P_DATA in args && args[P_DATA] == []
      ensures P_DATA !in args ==>
                r == Err(Absent(P_DATA)) && Message(r.error) == "Required command line argument data is absent"
    {
      First(P_DATA)
    }

    /** discovery(): every value given for `--discovery`. */
    function Discovery(): (r: Result<seq<string>, ArgError>)
      ensures r.Ok? <==> P_DISCOVERY in args
      ensures r.Ok? ==> r.value == args[P_DISCOVERY]
      ensures r.Err? ==> r.error == Absent(P_DISCOVERY)
                         && Message(r.error) == "Required command line argument discovery is absent"
    {
      if P_DISCOVERY !in args then Err(Absent(P_DISCOVERY)) else Ok(args[P_DISCOVERY])
    }
  }

  /** The Arguments constructor: parses the command line, failing as asMap fails. */
  method NewArguments(argv: seq<string>) returns (r: Result<Arguments, ArgError>)
    ensures r.Ok? <==> AllMatch(argv)
    ensures r.Ok? ==> Collect(argv) == Ok(r.value.args)
    ensures r.Err? ==> Collect(argv) == Err(r.error)
  {
    var parsed := AsMap(argv);
    CollectContents(argv);
    match parsed
    case Err(e) => r := Err(e);
    case Ok(m) => r := Ok(Arguments(m));
  }

  /**
   * An accessor reading the first value, in terms of the command line: absent
   * when no argument carries the key, failing on get(0) when only bare
   * `--name` arguments do, and otherwise the first value given.
   */
  lemma FirstOfCommandLine(argv: seq<string>, name: string)
    requires Collect(argv).Ok?
    ensures Arguments(Collect(argv).value).First(name) ==
              if !Mentions(argv, name) then Err(Absent(name))
              else if ValuesOf(argv, name) == [] then Err(NoValue(name))
              else Ok(ValuesOf(argv, name)[0])
  {
    CollectContents(argv);
  }

  /** discovery(), in terms of the command line: every value given, in order. */
  lemma DiscoveryOfCommandLine(argv: seq<string>)
    requires Collect(argv).Ok?
    ensures Arguments(Collect(argv).value).Discovery() ==
              if !Mentions(argv, P_DISCOVERY) then Err(Absent(P_DISCOVERY))
              else Ok(ValuesOf(argv, P_DISCOVERY))
  {
    CollectContents(argv);
  }

  /** With no arguments every accessor reports its key absent. */
  lemma EmptyCommandLineAbsent()
    ensures Arguments(map[]).Net() == Err(Absent("net"))
    ensures Arguments(map[]).Data() == Err(Absent("data"))
    ensures Arguments(map[]).Discovery() == Err(Absent("discovery"))
    ensures Message(Absent("net")) == "Required command line argument net is absent"
    ensures Message(Absent("data")) == "Required command line argument data is absent"
    ensures Message(Absent("discovery")) == "Required command line argument discovery is absent"
  {
  }

  /** `--key=v` for every v of `values`, in order. */
  function Repeated(key: string, values: seq<string>): (r: seq<string>)
    ensures |r| == |values|
    ensures forall i :: 0 <= i < |values| ==> r[i] == "--" + key + "=" + values[i]
  {
    if values == [] then [] else Repeated(key, values[..|values| - 1]) + ["--" + key + "=" + values[|values| - 1]]
  }

  /** A key given repeatedly collects all of its values, in argument order. */
  lemma {:induction false} RepeatedKeyAccumulates(key: string, values: seq<string>)
    requires ValidKey(key) && forall i :: 0 <= i < |values| ==> ValidValue(values[i])
    ensures Collect(Repeated(key, values)) == Ok(if values == [] then map[] else map[key := values])
  {
    if values != [] {
      var init, last := values[..|values| - 1], values[|values| - 1];
      var argv := Repeated(key, values);
      RepeatedKeyAccumulates(key, init);
      ValueAfterFirstEquals(key, last);
      assert argv == Repeated(key, init) + ["--" + key + "=" + last];
      CollectSnoc(Repeated(key, init), "--" + key + "=" + last);
      AppendValue(key, init, last);
      assert init + [last] == values;
    }
  }

  /** Collect on one more argument, when it matches. */
  lemma CollectSnoc(init: seq<string>, last: string)
    requires Collect(init).Ok? && ParseArg(last).Some?
    ensures Collect(init + [last]) == Ok(AddArg(Collect(init).value, ParseArg(last).value))
  {
    assert (init + [last])[..|init|] == init;
  }

  /** Appending a value to the only key of a map. */
  lemma AppendValue(key: string, init: seq<string>, last: string)
    ensures AddArg(if init == [] then map[] else map[key := init], Arg(key, Some(last))) == map[key := init + [last]]
  {
    if init == [] {
      assert [] + [last] == init + [last];
    }
  }

  /** The net unit test: `--net=test3` gives net() the value test3. */
  lemma NetSample()
    ensures Collect(["--net=test3"]).Ok?
    ensures Arguments(Collect(["--net=test3"]).value).Net() == Ok("test3")
  {
    var argv := ["--net=test3"];
    ParseNetSample();
    assert argv[..0] == [] && argv[|argv| - 1] == "--net=test3";
    assert Collect(argv) == Ok(AddArg(map[], Arg("net", Some("test3"))));
  }
}
