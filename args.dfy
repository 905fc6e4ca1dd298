/** The command-line parser of the OG image generator: a left-to-right scan of
    the tokens after the program name that fills four optional slots and stops
    early on a help flag or an unknown token. */
module Args {
  import opened Wrappers

  /** The four mutable locals of the parser. `None` is JavaScript's `null`
      (never assigned) or `undefined` (a flag in last position read past the
      end of the token list). */
  datatype Slots = Slots(tag: Option<string>, title: Option<string>,
                         author: Option<string>, picture: Option<string>)

  /** The slots before the first token is read: all `null`. */
  const Unset := Slots(None, None, None, None)

  /** What the parser ends with: `Help` is `process.exit(0)` after the usage
      text, `Unknown` and `Missing` are the two `process.exit(1)` paths, `Ok`
      is the returned record. */
  datatype ParseResult =
    | Help
    | Unknown(token: string)
    | Missing
    | Ok(tag: string, title: string, author: string, picturePath: string)

  /** Where the scan stops before the required-field check. */
  datatype Scan = Finished(slots: Slots) | StopHelp | StopUnknown(token: string)

  predicate IsValueFlag(t: string) {
    t == "--tag" || t == "--title" || t == "--author" || t == "--picture"
  }

  predicate IsHelpFlag(t: string) {
    t == "--help" || t == "-h"
  }

  /** The slot a value flag fills; `None` for any other token. */
  function Get(s: Slots, flag: string): Option<string> {
    if flag == "--tag" then s.tag
    else if flag == "--title" then s.title
    else if flag == "--author" then s.author
    else if flag == "--picture" then s.picture
    else None
  }

  /** JavaScript's `args[j]`: `undefined` past the end. */
  function TokenAt(args: seq<string>, j: nat): (r: Option<string>)
    ensures r.Some? <==> j < |args|
    ensures r.Some? ==> r.value == args[j]
  {
    if j < |args| then Some(args[j]) else None
  }

  /** One assignment `slot = args[++i]`: the slot named by `flag` now holds
      `v` and the other three slots are left as they were. */
  function Assign(s: Slots, flag: string, v: Option<string>): (r: Slots)
    requires IsValueFlag(flag)
    ensures Get(r, flag) == v
    ensures forall f :: f != flag ==> Get(r, f) == Get(s, f)
  {
    if flag == "--tag" then s.(tag := v)
    else if flag == "--title" then s.(title := v)
    else if flag == "--author" then s.(author := v)
    else s.(picture := v)
  }

  /** JavaScript truthiness of a string slot: set and not empty. */
  predicate Truthy(o: Option<string>) {
    o.Some? && o.value != ""
  }

  predicate AllTruthy(s: Slots) {
    Truthy(s.tag) && Truthy(s.title) && Truthy(s.author) && Truthy(s.picture)
  }

  /** The scan from flag position `i` with the slots `s`: a value flag takes
      the next token verbatim (or `undefined`) and moves two positions on, a
      help flag or any other token ends the scan. A slot it fills holds a
      token of `args` or keeps the value it had. */
  function ScanFrom(args: seq<string>, i: nat, s: Slots): (r: Scan)
    ensures r.StopUnknown? ==> r.token in args && !IsValueFlag(r.token) && !IsHelpFlag(r.token)
    ensures r == StopHelp ==> "--help" in args || "-h" in args
    ensures r.Finished? ==> forall f :: Get(r.slots, f).Some? ==>
              Get(r.slots, f) == Get(s, f) || Get(r.slots, f).value in args
    decreases |args| - i
  {
    if i >= |args| then Finished(s)
    else if IsValueFlag(args[i]) then ScanFrom(args, i + 2, Assign(s, args[i], TokenAt(args, i + 1)))
    else if IsHelpFlag(args[i]) then StopHelp
    else StopUnknown(args[i])
  }

  /** The required-field check after the loop. */
  function Decide(sc: Scan): (r: ParseResult)
    ensures r == Help <==> sc == StopHelp
    ensures r.Unknown? <==> sc.StopUnknown?
    ensures r.Unknown? ==> r.token == sc.token
    ensures r.Ok? <==> sc.Finished? && AllTruthy(sc.slots)
    ensures r == Missing <==> sc.Finished? && !AllTruthy(sc.slots)
    ensures r.Ok? ==> r.tag != "" && r.title != "" && r.author != "" && r.picturePath != ""
    ensures r.Ok? ==> Some(r.tag) == sc.slots.tag && Some(r.title) == sc.slots.title
                      && Some(r.author) == sc.slots.author && Some(r.picturePath) == sc.slots.picture
  {
    match sc
    case StopHelp => Help
    case StopUnknown(t) => Unknown(t)
    case Finished(s) =>
      if AllTruthy(s) then Ok(s.tag.value, s.title.value, s.author.value, s.picture.value)
      else Missing
  }

  /** What `parseArguments` does with the token list `args`. Whatever it
      reports comes from the command line: the offending token, the help
      flag, or four non-empty tokens. */
  function Parse(args: seq<string>): (r: ParseResult)
    ensures r.Unknown? ==> r.token in args && !IsValueFlag(r.token) && !IsHelpFlag(r.token)
    ensures r == Help ==> "--help" in args || "-h" in args
    ensures r.Ok? ==> r.tag in args && r.title in args && r.author in args && r.picturePath in args
    ensures r.Ok? ==> r.tag != "" && r.title != "" && r.author != "" && r.picturePath != ""
  {
    var sc := ScanFrom(args, 0, Unset);
    assert sc.Finished? ==> Get(sc.slots, "--tag") == sc.slots.tag && Get(sc.slots, "--title") == sc.slots.title
                            && Get(sc.slots, "--author") == sc.slots.author
                            && Get(sc.slots, "--picture") == sc.slots.picture;
    Decide(sc)
  }

  /** The parser as the source writes it: a loop over the tokens whose index
      is also advanced inside the body, four locals, early exits. */
  method ParseArguments(args: seq<string>) returns (r: ParseResult)
    ensures r == Parse(args)
  {
    var tag: Option<string> := None;
    var title: Option<string> := None;
    var author: Option<string> := None;
    var picturePath: Option<string> := None;
    var i: nat := 0;
    while i < |args|
      invariant i <= |args| + 1
      invariant ScanFrom(args, i, Slots(tag, title, author, picturePath)) == ScanFrom(args, 0, Unset)
      decreases |args| + 1 - i
    {
      var t := args[i];
      if t == "--tag" {
        i := i + 1;
        tag := TokenAt(args, i);
      } else if t == "--title" {
        i := i + 1;
        title := TokenAt(args, i);
      } else if t == "--author" {
        i := i + 1;
        author := TokenAt(args, i);
      } else if t == "--picture" {
        i := i + 1;
        picturePath := TokenAt(args, i);
      } else if t == "--help" || t == "-h" {
        return Help;
      } else {
        return Unknown(t);
      }
      i := i + 1;
    }
    if !Truthy(tag) || !Truthy(title) || !Truthy(author) || !Truthy(picturePath) {
      return Missing;
    }
    return Ok(tag.value, title.value, author.value, picturePath.value);
  }

  // ---------------------------------------------------------------------
  // Well-formed invocations: a list of (flag, value) pairs.

  /** The tokens `[f0, v0, f1, v1, ...]` of a list of pairs. */
  function Flatten(pairs: seq<(string, string)>): (r: seq<string>)
    ensures |r| == 2 * |pairs|
  {
    if pairs == [] then [] else [pairs[0].0, pairs[0].1] + Flatten(pairs[1..])
  }

  predicate AllValueFlags(pairs: seq<(string, string)>) {
    forall k :: 0 <= k < |pairs| ==> IsValueFlag(pairs[k].0)
  }

  /** The slots after assigning the pairs in order. */
  function ApplyAll(s: Slots, pairs: seq<(string, string)>): Slots
    requires AllValueFlags(pairs)
    decreases |pairs|
  {
    if pairs == [] then s else ApplyAll(Assign(s, pairs[0].0, Some(pairs[0].1)), pairs[1..])
  }

  /** What the scan does from position `|pre| + i` does not depend on the
      tokens before that position. */
  lemma {:induction false} ScanShift(pre: seq<string>, ys: seq<string>, i: nat, s: Slots)
    ensures ScanFrom(pre + ys, |pre| + i, s) == ScanFrom(ys, i, s)
    decreases |ys| - i
  {
    var xs := pre + ys;
    if i < |ys| {
      assert xs[|pre| + i] == ys[i];
      assert TokenAt(xs, |pre| + i + 1) == TokenAt(ys, i + 1);
      if IsValueFlag(ys[i]) {
        ScanShift(pre, ys, i + 2, Assign(s, ys[i], TokenAt(ys, i + 1)));
      }
    }
  }

  /** Every value flag consumes the token after it verbatim, whatever it looks
      like: scanning pairs and then `rest` is scanning `rest` from the slots
      the pairs leave behind. */
  lemma {:induction false} ScanPairs(pairs: seq<(string, string)>, rest: seq<string>, s: Slots)
    requires AllValueFlags(pairs)
    ensures ScanFrom(Flatten(pairs) + rest, 0, s) == ScanFrom(rest, 0, ApplyAll(s, pairs))
  {
    if pairs != [] {
      var f, v := pairs[0].0, pairs[0].1;
      var tail := Flatten(pairs[1..]) + rest;
      var xs := Flatten(pairs) + rest;
      assert xs == [f, v] + tail;
      assert xs[0] == f && IsValueFlag(f) && TokenAt(xs, 1) == Some(v);
      assert ScanFrom(xs, 0, s) == ScanFrom(xs, 2, Assign(s, f, Some(v)));
      ScanShift([f, v], tail, 0, Assign(s, f, Some(v)));
      assert AllValueFlags(pairs[1..]) by {
        forall k | 0 <= k < |pairs[1..]| ensures IsValueFlag(pairs[1..][k].0) {
          assert pairs[1..][k] == pairs[k + 1];
        }
      }
      ScanPairs(pairs[1..], rest, Assign(s, f, Some(v)));
      assert ScanFrom(xs, 2, Assign(s, f, Some(v))) == ScanFrom(tail, 0, Assign(s, f, Some(v)));
      assert ApplyAll(s, pairs) == ApplyAll(Assign(s, f, Some(v)), pairs[1..]);
    } else {
      assert Flatten(pairs) + rest == rest;
    }
  }

  /** A slot that no pair names keeps its value. */
  lemma {:induction false} AbsentFlagUnchanged(s: Slots, pairs: seq<(string, string)>, f: string)
    requires AllValueFlags(pairs)
    requires forall j :: 0 <= j < |pairs| ==> pairs[j].0 != f
    ensures Get(ApplyAll(s, pairs), f) == Get(s, f)
    decreases |pairs|
  {
    if pairs != [] {
      assert pairs[0].0 != f;
      assert forall j :: 0 <= j < |pairs[1..]| ==> pairs[1..][j] == pairs[j + 1];
      AbsentFlagUnchanged(Assign(s, pairs[0].0, Some(pairs[0].1)), pairs[1..], f);
    }
  }

  /** Repeating a flag overwrites its earlier value: the slot holds the value
      of the last pair that names it. */
  lemma {:induction false} LastOccurrenceWins(s: Slots, pairs: seq<(string, string)>, f: string, k: nat)
    requires AllValueFlags(pairs)
    requires k < |pairs| && pairs[k].0 == f
    requires forall j :: k < j < |pairs| ==> pairs[j].0 != f
    ensures Get(ApplyAll(s, pairs), f) == Some(pairs[k].1)
    decreases |pairs|
  {
    var s' := Assign(s, pairs[0].0, Some(pairs[0].1));
    assert forall j :: 0 <= j < |pairs[1..]| ==> pairs[1..][j] == pairs[j + 1];
    if k == 0 {
      AbsentFlagUnchanged(s', pairs[1..], f);
    } else {
      LastOccurrenceWins(s', pairs[1..], f, k - 1);
    }
  }

  /** A well-formed invocation parses to `Ok` exactly when the slots its pairs
      leave behind are all non-empty, and its fields are those slots. */
  lemma ParsePairs(pairs: seq<(string, string)>)
    requires AllValueFlags(pairs)
    ensures Parse(Flatten(pairs)) == Decide(Finished(ApplyAll(Unset, pairs)))
  {
    ScanPairs(pairs, [], Unset);
    assert Flatten(pairs) + [] == Flatten(pairs);
  }

  /** The first token at a flag position that is not a value flag decides
      the outcome: a help flag gives `Help`, anything else `Unknown` of that
      token, whatever follows. */
  lemma FirstStopDecides(pairs: seq<(string, string)>, t: string, rest: seq<string>)
    requires AllValueFlags(pairs)
    requires !IsValueFlag(t)
    ensures IsHelpFlag(t) ==> Parse(Flatten(pairs) + [t] + rest) == Help
    ensures !IsHelpFlag(t) ==> Parse(Flatten(pairs) + [t] + rest) == Unknown(t)
  {
    ScanPairs(pairs, [t] + rest, Unset);
    assert Flatten(pairs) + [t] + rest == Flatten(pairs) + ([t] + rest);
  }

  /** A value flag in last position reads `undefined`, which erases any value
      given to that flag before, so the parse ends in `Missing`. */
  lemma TrailingFlagMissing(pairs: seq<(string, string)>, f: string)
    requires AllValueFlags(pairs)
    requires IsValueFlag(f)
    ensures Parse(Flatten(pairs) + [f]) == Missing
  {
    ScanPairs(pairs, [f], Unset);
    var s := ApplyAll(Unset, pairs);
    assert ScanFrom([f], 0, s) == Finished(Assign(s, f, None));
  }

  /** Once the scan has stopped on a help flag or an unknown token, the
      tokens after it are never examined. */
  lemma {:induction false} StopIgnoresLaterTokensFrom(args: seq<string>, extra: seq<string>, i: nat, s: Slots)
    requires !ScanFrom(args, i, s).Finished?
    ensures ScanFrom(args + extra, i, s) == ScanFrom(args, i, s)
    decreases |args| - i
  {
    var xs := args + extra;
    assert xs[i] == args[i];
    if IsValueFlag(args[i]) {
      assert i + 1 < |args|;
      assert TokenAt(xs, i + 1) == TokenAt(args, i + 1);
      StopIgnoresLaterTokensFrom(args, extra, i + 2, Assign(s, args[i], TokenAt(args, i + 1)));
    }
  }

  /** Appending tokens after a `Help` or `Unknown` outcome changes nothing. */
  lemma StopIgnoresLaterTokens(args: seq<string>, extra: seq<string>)
    requires Parse(args) == Help || Parse(args).Unknown?
    ensures Parse(args + extra) == Parse(args)
  {
    StopIgnoresLaterTokensFrom(args, extra, 0, Unset);
  }

  /** `--tag --help` sets the tag to "--help" and shows no help. */
  lemma TagSwallowsHelp(rest: seq<string>)
    ensures Parse(["--tag", "--help"] + rest) == Decide(ScanFrom(rest, 0, Unset.(tag := Some("--help"))))
  {
    var pairs := [("--tag", "--help")];
    assert pairs[1..] == [];
    assert Flatten(pairs) == ["--tag", "--help"];
    ScanPairs(pairs, rest, Unset);
  }

  /** An unknown token before `--help` exits with status 1, not with help. */
  lemma UnknownBeforeHelp(u: string, rest: seq<string>)
    requires !IsValueFlag(u) && !IsHelpFlag(u)
    ensures Parse([u, "--help"] + rest) == Unknown(u)
  {
  }
}
