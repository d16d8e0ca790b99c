/**
 * The command-line interpreter of the `lab` crate: `parse_command` turns
 * the argument tokens into a `Command`, `parse_args` turns them into a
 * vector of `i32`, and `main` adds that vector up.
 */
module Lab {
  import opened Results
  import opened I32
  import opened Ascii

  datatype Command = Add(values: seq<i32>) | List | Quit

  // ---- Error messages ----

  const NoInput := "no input provided"
  const AddNeedsNumber := "add needs at least one number"

  function BadNumber(token: string): string { "bad number: " + token }

  function UnknownCommand(verb: string): string { "unknown command: " + verb }

  function NotAnInteger(arg: string): string { "Could not parse '" + arg + "' as an integer" }

  // ---- What it means for a token list to parse ----

  predicate AllParse(ts: seq<string>) {
    forall i :: 0 <= i < |ts| ==> ParseI32(ts[i]).Some?
  }

  /** `k` is the leftmost token of `ts` that is not an `i32`. */
  predicate IsFirstBad(ts: seq<string>, k: int) {
    && 0 <= k < |ts|
    && ParseI32(ts[k]).None?
    && forall j :: 0 <= j < k ==> ParseI32(ts[j]).Some?
  }

  /** `vs` holds the parse of every token of `ts`, in order. */
  predicate ParsesTo(ts: seq<string>, vs: seq<i32>) {
    |vs| == |ts| && forall i :: 0 <= i < |ts| ==> ParseI32(ts[i]) == Some(vs[i])
  }

  lemma FirstBadUnique(ts: seq<string>, k: int, k': int)
    requires IsFirstBad(ts, k) && IsFirstBad(ts, k')
    ensures k == k'
  {
  }

  // ---- parse_command ----

  /**
   * `raw[1..].iter().map(..).collect::<Result<Vec<_>, _>>()`: the parses
   * of the tokens in order, or the error of the first token that fails.
   */
  function CollectNumbers(ts: seq<string>): (r: Result<seq<i32>, string>)
    ensures r.Ok? <==> AllParse(ts)
    ensures r.Ok? ==> ParsesTo(ts, r.value)
    ensures r.Err? ==> exists k :: IsFirstBad(ts, k) && r.error == BadNumber(ts[k])
  {
    if ts == [] then Ok([])
    else match ParseI32(ts[0])
      case None => Err(BadNumber(ts[0]))
      case Some(v) =>
        match CollectNumbers(ts[1..])
        case Err(e) => Err(e)
        case Ok(vs) => Ok([v] + vs)
  }

  /**
   * `parse_command`: the lower-cased first token selects the command; the
   * command is accepted exactly for `list`, `quit`, and `add` followed by
   * at least one token, all of them `i32`s; an `add` carries one value per
   * operand.
   */
  function ParseCommand(raw: seq<string>): (r: Result<Command, string>)
    ensures r.Ok? <==>
      && raw != []
      && (|| ToLowercase(raw[0]) in {"list", "quit"}
          || (ToLowercase(raw[0]) == "add" && |raw| > 1 && AllParse(raw[1..])))
    ensures r.Ok? && r.value.Add? ==> |r.value.values| == |raw| - 1 > 0
  {
    if raw == [] then Err(NoInput)
    else
      var verb := ToLowercase(raw[0]);
      if verb == "add" then
        if |raw| == 1 then Err(AddNeedsNumber)
        else
          match CollectNumbers(raw[1..])
          case Err(e) => Err(e)
          case Ok(numbers) => Ok(Add(numbers))
      else if verb == "list" then Ok(List)
      else if verb == "quit" then Ok(Quit)
      else Err(UnknownCommand(verb))
  }

  lemma ParsesToUnique(ts: seq<string>, vs: seq<i32>, ws: seq<i32>)
    requires ParsesTo(ts, vs) && ParsesTo(ts, ws)
    ensures vs == ws
  {
    assert forall i :: 0 <= i < |ts| ==> Some(vs[i]) == Some(ws[i]);
  }

  /** No tokens at all is the error "no input provided". */
  lemma ParseCommandEmpty()
    ensures ParseCommand([]) == Err(NoInput)
  {
  }

  /** Only the lower-cased form of the verb matters. */
  lemma ParseCommandVerbCaseInsensitive(a: string, b: string, rest: seq<string>)
    requires ToLowercase(a) == ToLowercase(b)
    ensures ParseCommand([a] + rest) == ParseCommand([b] + rest)
  {
    assert ([a] + rest)[1..] == rest && ([b] + rest)[1..] == rest;
  }

  /** `list` and `quit`, in any case, select their command and no other. */
  lemma ParseCommandSelects(raw: seq<string>)
    requires raw != []
    ensures ParseCommand(raw) == Ok(List) <==> ToLowercase(raw[0]) == "list"
    ensures ParseCommand(raw) == Ok(Quit) <==> ToLowercase(raw[0]) == "quit"
    ensures ParseCommand(raw).Ok? && ParseCommand(raw).value.Add? <==> ToLowercase(raw[0]) == "add" && |raw| > 1 && AllParse(raw[1..])
  {
  }

  /** `add` with nothing after it asks for a number. */
  lemma ParseCommandAddAlone(verb: string)
    requires ToLowercase(verb) == "add"
    ensures ParseCommand([verb]) == Err(AddNeedsNumber)
  {
  }

  /** When every operand of `add` is an `i32`, the command carries their values in order. */
  lemma ParseCommandAddValues(raw: seq<string>)
    requires raw != [] && ToLowercase(raw[0]) == "add" && |raw| > 1 && AllParse(raw[1..])
    ensures ParseCommand(raw).Ok? && ParseCommand(raw).value.Add?
    ensures ParsesTo(raw[1..], ParseCommand(raw).value.values)
  {
  }

  /** Otherwise the error names the leftmost operand that is not an `i32`, as written. */
  lemma ParseCommandAddFirstBad(raw: seq<string>, k: nat)
    requires raw != [] && ToLowercase(raw[0]) == "add" && IsFirstBad(raw[1..], k)
    ensures ParseCommand(raw) == Err(BadNumber(raw[k + 1]))
  {
    var r := CollectNumbers(raw[1..]);
    var k' :| IsFirstBad(raw[1..], k') && r.error == BadNumber(raw[1..][k']);
    FirstBadUnique(raw[1..], k, k');
  }

  /** `list` and `quit` ignore whatever follows them. */
  lemma ParseCommandIgnoresTrailing(verb: string, rest: seq<string>)
    requires ToLowercase(verb) in {"list", "quit"}
    ensures ParseCommand([verb] + rest) == ParseCommand([verb])
  {
  }

  /** Any other verb is reported in its lower-cased form. */
  lemma ParseCommandUnknown(raw: seq<string>)
    requires raw != [] && ToLowercase(raw[0]) !in {"add", "list", "quit"}
    ensures ParseCommand(raw) == Err(UnknownCommand(ToLowercase(raw[0])))
  {
  }

  lemma CollectTwoThree()
    ensures CollectNumbers(["2", "3"]) == Ok([2, 3])
  {
    assert ParseI32("2") == Some(2) && ParseI32("3") == Some(3);
    assert ParsesTo(["2", "3"], [2, 3]);
    ParsesToUnique(["2", "3"], CollectNumbers(["2", "3"]).value, [2, 3]);
  }

  lemma ParseCommandExamplesAdd()
    ensures ParseCommand(["add", "2", "3"]) == Ok(Add([2, 3]))
    ensures ParseCommand(["ADD", "2", "3"]) == Ok(Add([2, 3]))
  {
    LowercaseMatchesWord("add", "add");
    LowercaseMatchesWord("ADD", "add");
    assert ["add", "2", "3"][1..] == ["2", "3"];
    assert ["ADD", "2", "3"][1..] == ["2", "3"];
    CollectTwoThree();
  }

  lemma ParseCommandExampleAddAlone()
    ensures ParseCommand(["add"]) == Err("add needs at least one number")
  {
    LowercaseMatchesWord("add", "add");
  }

  lemma ParseCommandExampleBadNumber()
    ensures ParseCommand(["add", "4", "x"]) == Err("bad number: x")
  {
    LowercaseMatchesWord("add", "add");
    ParseI32Rejects();
    assert ParseI32("4") == Some(4);
    assert BadNumber("x") == "bad number: x";
    assert IsFirstBad(["4", "x"], 1);
    assert ["add", "4", "x"][1..] == ["4", "x"];
    ParseCommandAddFirstBad(["add", "4", "x"], 1);
  }

  lemma ParseCommandExampleUnknown()
    ensures ParseCommand(["dance"]) == Err("unknown command: dance")
  {
    LowercaseMatchesWord("dance", "dance");
    assert UnknownCommand("dance") == "unknown command: dance";
  }

  lemma ParseCommandExampleQuit()
    ensures ParseCommand(["Quit", "now"]) == Ok(Quit)
  {
    LowercaseMatchesWord("Quit", "quit");
  }

  // ---- parse_args ----

  /**
   * `parse_args`: pushes the parse of each argument onto `numbers` and
   * returns early with an error at the first argument that is not an `i32`.
   */
  method ParseArgs(args: seq<string>) returns (r: Result<seq<i32>, string>)
    ensures r.Ok? <==> AllParse(args)
    ensures r.Ok? ==> ParsesTo(args, r.value)
    ensures r.Err? ==> exists k :: IsFirstBad(args, k) && r.error == NotAnInteger(args[k])
    ensures r.Ok? && args != [] ==> ParseCommand(["add"] + args) == Ok(Add(r.value))
  {
    var numbers: seq<i32> := [];
    for i := 0 to |args|
      invariant ParsesTo(args[..i], numbers)
    {
      match ParseI32(args[i])
      case None =>
        assert IsFirstBad(args, i) by {
          assert forall j :: 0 <= j < i ==> args[..i][j] == args[j];
        }
        return Err(NotAnInteger(args[i]));
      case Some(value) =>
        numbers := numbers + [value];
        assert args[..i + 1] == args[..i] + [args[i]];
    }
    assert args[..|args|] == args;
    if args != [] {
      assert (["add"] + args)[1..] == args;
      ParsesToUnique(args, numbers, CollectNumbers(args).value);
    }
    return Ok(numbers);
  }

  // ---- The total printed by main ----

  /** The sum of `xs` over the integers, adding left to right. */
  function Sum(xs: seq<i32>): int {
    if xs == [] then 0 else Sum(xs[..|xs| - 1]) + xs[|xs| - 1] as int
  }

  /** Every running total of `xs`, from the empty prefix to all of it, is an `i32`. */
  predicate RunningTotalsFit(xs: seq<i32>) {
    forall k :: 0 <= k <= |xs| ==> InRange(Sum(xs[..k]))
  }

  /**
   * `xs.iter().sum()` continued from `acc`: each addition is checked, and
   * `None` is the overflow that a debug build reports as a panic.
   */
  function SumFrom(xs: seq<i32>, acc: i32): Option<i32>
    decreases |xs|
  {
    if xs == [] then Some(acc)
    else if !InRange(acc as int + xs[0] as int) then None
    else SumFrom(xs[1..], (acc as int + xs[0] as int) as i32)
  }

  /** The `i32` total that `main` computes from the parsed numbers with `iter().sum()`. */
  function Total(xs: seq<i32>): Option<i32> {
    SumFrom(xs, 0)
  }

  lemma SumSnoc(p: seq<i32>, x: i32)
    ensures Sum(p + [x]) == Sum(p) + x as int
  {
    assert (p + [x])[..|p|] == p;
  }

  /** Every running total of `p + d[..k]`, for `k` up to `|d|`, is an `i32`. */
  predicate ExtensionsFit(p: seq<i32>, d: seq<i32>) {
    forall k :: 0 <= k <= |d| ==> InRange(Sum(p + d[..k]))
  }

  lemma ExtensionsFitStep(p: seq<i32>, d: seq<i32>)
    requires d != []
    ensures ExtensionsFit(p, d) <==> InRange(Sum(p)) && ExtensionsFit(p + [d[0]], d[1..])
  {
    var q := p + [d[0]];
    assert p + d[..0] == p;
    forall k | 1 <= k <= |d|
      ensures p + d[..k] == q + d[1..][..k - 1]
    {
      assert d[..k] == [d[0]] + d[1..][..k - 1];
    }
    if InRange(Sum(p)) && ExtensionsFit(q, d[1..]) {
      forall k | 1 <= k <= |d|
        ensures InRange(Sum(p + d[..k]))
      {
        assert InRange(Sum(q + d[1..][..k - 1]));
      }
    }
    if ExtensionsFit(p, d) {
      forall k | 0 <= k <= |d[1..]|
        ensures InRange(Sum(q + d[1..][..k]))
      {
        assert InRange(Sum(p + d[..k + 1]));
      }
    }
  }

  /**
   * Summing `d` on from the total of `p` succeeds exactly when every
   * running total stays an `i32`, and then gives the total of `p + d`.
   */
  lemma {:induction false} SumFromMeaning(p: seq<i32>, d: seq<i32>)
    requires InRange(Sum(p))
    ensures var r := SumFrom(d, Sum(p) as i32);
      && (r.Some? <==> ExtensionsFit(p, d))
      && (r.Some? ==> r.value as int == Sum(p + d))
    decreases |d|
  {
    if d == [] {
      assert p + d == p && p + d[..0] == p;
      return;
    }
    var q := p + [d[0]];
    SumSnoc(p, d[0]);
    ExtensionsFitStep(p, d);
    assert p + d == q + d[1..];
    if InRange(Sum(q)) {
      SumFromMeaning(q, d[1..]);
    } else {
      assert !ExtensionsFit(q, d[1..]) by { assert q + d[1..][..0] == q; }
    }
  }

  /**
   * The total is defined exactly when no running total leaves the `i32`
   * range, and it is then the sum of the numbers.
   */
  lemma TotalMeaning(xs: seq<i32>)
    ensures Total(xs).Some? <==> RunningTotalsFit(xs)
    ensures Total(xs).Some? ==> Total(xs).value as int == Sum(xs)
  {
    assert Sum([]) == 0;
    SumFromMeaning([], xs);
    assert [] + xs == xs;
    assert forall k :: 0 <= k <= |xs| ==> [] + xs[..k] == xs[..k];
    assert ExtensionsFit([], xs) <==> RunningTotalsFit(xs);
  }

  lemma TotalExamples()
    ensures Total([10, -3]) == Some(7)
    ensures Total([]) == Some(0)
    ensures Total([0x7FFF_FFFF, 1]) == None
  {
  }

  // ---- The crate's tests ----

  /** `parses_numbers`: `["10", "-3"]` gives `[10, -3]`. */
  method ParsesNumbers() returns (r: Result<seq<i32>, string>)
    ensures r == Ok([10, -3])
  {
    r := ParseArgs(["10", "-3"]);
    ParseI32Accepts();
    ParsesToUnique(["10", "-3"], r.value, [10, -3]);
    assert r == Ok([10, -3]);
  }

  /** `rejects_bad_input`: the error for `["nope"]` quotes `nope`. */
  method RejectsBadInput() returns (r: Result<seq<i32>, string>)
    ensures r.Err? && |r.error| >= 21 && r.error[17..21] == "nope"
  {
    r := ParseArgs(["nope"]);
    ParseI32Rejects();
    assert IsFirstBad(["nope"], 0);
    var k :| IsFirstBad(["nope"], k) && r.error == NotAnInteger(["nope"][k]);
    FirstBadUnique(["nope"], 0, k);
    assert r.error[17..21] == "nope";
  }
}
