/**
  The `SubargParser` class: its constructor, `parse_subargs`,
  `_check_mandatory_args` and `get_metavar_str`, each proved against a
  pure specification, and the lemmas about what a parse produces.
 */
module SubargParsing {
  import opened Wrappers
  import opened SubargRecords
  import opened SubargTokens
  import opened SubargMandatory
  import opened SubargMetavar

  /** `SubargParser.EXC_POS_SUBARGS_FIELD` */
  const ExcessPosField: string := "excess_pos_subargs"
  /** `SubargParser.EXC_KW_SUBARG_NAMES_FIELD` */
  const ExcessKwField: string := "excess_kw_subarg_names"

  /** An error passed to `_error`; whether the host then exits is its own decision. */
  datatype Report = TooManyPositional(values: seq<string>) | TooManyKeyword(names: seq<string>)

  /**
    The outcome of `parse_subargs`: the namespace it returns, the
    `ArgumentError` for a missing field, or a Python error raised while
    building that error's message; each carries the errors reported to
    `_error` before that point, in order.
   */
  datatype ParseOutcome =
    | Parsed(ns: Namespace, reported: seq<Report>)
    | Rejected(missing: MissingSubarg, reported: seq<Report>)
    | Raised(error: PyError, reported: seq<Report>)

  /** The constructor's failure: more mandatory positionals than declared ones. */
  datatype ConfigError = MandatoryExceedsPositional(numMandatory: int, declared: nat)

  /**
    The namespace after the token pass, with each non-empty excess list
    stored under its field: every other attribute is kept as the pass bound it.
   */
  function FinalNamespace(st: ScanState): (r: Namespace)
    ensures forall k :: k in r <==>
      k in st.ns || (k == ExcessPosField && st.excessPos != []) || (k == ExcessKwField && st.excessKw != [])
    ensures forall k :: k in st.ns && k != ExcessPosField && k != ExcessKwField ==> r[k] == st.ns[k]
    ensures st.excessPos != [] ==> r[ExcessPosField] == Items(st.excessPos)
    ensures st.excessKw != [] ==> r[ExcessKwField] == Items(st.excessKw)
  {
    var ns := if st.excessPos != [] then st.ns[ExcessPosField := Items(st.excessPos)] else st.ns;
    if st.excessKw != [] then ns[ExcessKwField := Items(st.excessKw)] else ns
  }

  /**
    The errors reported for the excess lists: none when excess is allowed;
    otherwise one for each non-empty list, the positional one first.
   */
  function Reports(allowExcess: bool, st: ScanState): (r: seq<Report>)
    ensures allowExcess ==> r == []
    ensures !allowExcess ==> (TooManyPositional(st.excessPos) in r <==> st.excessPos != [])
    ensures !allowExcess ==> (TooManyKeyword(st.excessKw) in r <==> st.excessKw != [])
    ensures |r| <= 2 && (|r| == 2 ==> r[0].TooManyPositional? && r[1].TooManyKeyword?)
  {
    (if st.excessPos != [] && !allowExcess then [TooManyPositional(st.excessPos)] else []) +
    (if st.excessKw != [] && !allowExcess then [TooManyKeyword(st.excessKw)] else [])
  }

  /**
    `parse_subargs`, as a function of the configuration and the tokens,
    with the message of line 315 corrected: it never raises, reports
    nothing when excess is allowed, and a parse that succeeds keeps every
    attribute the token pass bound.
   */
  function ParseSpec(pos: seq<PSubarg>, kw: seq<KWSubarg>, numMandatory: int, allowExcess: bool,
                     argName: Option<string>, args: seq<string>): (r: ParseOutcome)
    ensures !r.Raised?
    ensures allowExcess ==> r.reported == []
    ensures r.Parsed? ==> Scan(pos, kw, args).ns.Keys <= r.ns.Keys
  {
    var st := Scan(pos, kw, args);
    var ns := FinalNamespace(st);
    match MandatoryCheck(pos, kw, numMandatory, argName, ns)
    case None => Parsed(ns, Reports(allowExcess, st))
    case Some(m) => Rejected(m, Reports(allowExcess, st))
  }

  /**
    `parse_subargs` exactly as written: it differs from `ParseSpec` only
    when the first missing field is a keyword field, where the message
    names a positional field, or raises IndexError when there is none at
    that index.
   */
  function ParseSpecAsWritten(pos: seq<PSubarg>, kw: seq<KWSubarg>, numMandatory: int, allowExcess: bool,
                              argName: Option<string>, args: seq<string>): (r: ParseOutcome)
    ensures var o := ParseSpec(pos, kw, numMandatory, allowExcess, argName, args);
      var fm := FirstMissing(pos, kw, numMandatory, FinalNamespace(Scan(pos, kw, args)));
      && r.reported == o.reported
      && (r.Raised? <==> fm.Some? && fm.value.MissingKeyword? && fm.value.index >= |pos|)
      && (r.Raised? ==> r.error == IndexError)
      && (r.Parsed? <==> o.Parsed?)
      && (r.Rejected? ==> o.Rejected? && r.missing.field == o.missing.field)
      && (fm.None? || fm.value.MissingPositional? ==> r == o)
  {
    var st := Scan(pos, kw, args);
    var ns := FinalNamespace(st);
    match MandatoryCheckAsWritten(pos, kw, numMandatory, argName, ns)
    case Failure(e) => Raised(e, Reports(allowExcess, st))
    case Success(None) => Parsed(ns, Reports(allowExcess, st))
    case Success(Some(m)) => Rejected(m, Reports(allowExcess, st))
  }

  /** `Join` of the first `i` items as the source's loop leaves it: a trailing space while items remain. */
  ghost function JoinPrefix(items: seq<string>, i: nat): string
    requires i <= |items|
  {
    if i == 0 then "" else Join(items[..i]) + (if i < |items| then " " else "")
  }

  lemma JoinPrefixStep(items: seq<string>, i: nat)
    requires i < |items|
    ensures JoinPrefix(items, i + 1) == JoinPrefix(items, i) + items[i] + (if i < |items| - 1 then " " else "")
  {
    assert items[..i + 1][..i] == items[..i];
  }

  /** Regrouping a concatenation, so that the loops' appends stay within one proof step. */
  lemma AppendAssoc(a: string, b: string, c: string)
    ensures (a + b) + c == a + (b + c)
  {
  }

  lemma JoinPrefixAll(items: seq<string>)
    ensures JoinPrefix(items, |items|) == Join(items)
  {
    assert items[..|items|] == items;
  }

  /** Joining the two groups as the source does: one space between them when both are non-empty. */
  lemma JoinGroups(a: seq<string>, b: seq<string>)
    ensures Join(a) + (if a != [] && b != [] then " " else "") + Join(b) == Join(a + b)
  {
    if a != [] && b != [] {
      JoinConcat(a, b);
    } else if a == [] {
      assert a + b == b;
    } else {
      assert a + b == a;
    }
  }

  class SubargParser {
    const posArgs: seq<PSubarg>
    const kwArgs: seq<KWSubarg>
    const numMandatoryPosArgs: int
    const allowExcessArgs: bool
    /** `_arg_name`; `SubargAction` assigns it after construction. */
    var argName: Option<string>

    /**
      `__init__` once its bound check has passed: each entry list copied
      in order, bare names turned into records. The defaults are those of
      the source: no fields, every positional mandatory (-1), excess
      allowed, no argument name.
     */
    constructor (posEntries: seq<PosEntry> := [], kwEntries: seq<KwEntry> := [], numMandatory: int := -1,
                 allowExcess: bool := true, name: Option<string> := None)
      requires numMandatory <= |posEntries|
      ensures numMandatoryPosArgs <= |posArgs|
      ensures posArgs == NormalizePos(posEntries) && kwArgs == NormalizeKw(kwEntries)
      ensures numMandatoryPosArgs == numMandatory && allowExcessArgs == allowExcess && argName == name
    {
      var ps: seq<PSubarg> := [];
      for i := 0 to |posEntries|
        invariant |ps| == i
        invariant forall k :: 0 <= k < i ==> ps[k] == ToPSubarg(posEntries[k])
      {
        ps := ps + [ToPSubarg(posEntries[i])];
      }
      var ks: seq<KWSubarg> := [];
      for i := 0 to |kwEntries|
        invariant |ks| == i
        invariant forall k :: 0 <= k < i ==> ks[k] == ToKWSubarg(kwEntries[k])
      {
        ks := ks + [ToKWSubarg(kwEntries[i])];
      }
      posArgs, kwArgs := ps, ks;
      numMandatoryPosArgs, allowExcessArgs, argName := numMandatory, allowExcess, name;
    }

    /** `SubargAction` naming the parser after its option: `_arg_name = dest`. */
    method AssignArgName(dest: string)
      modifies this
      ensures argName == Some(dest)
    {
      argName := Some(dest);
    }

    /**
      `get_metavar_str`, with the bracketing of positionals corrected to
      agree with `_check_mandatory_args` (see `MetavarAsWritten`).
     */
    method GetMetavarStr() returns (metavar: string)
      ensures metavar == MetavarCorrected(posArgs, kwArgs, numMandatoryPosArgs, allowExcessArgs)
    {
      if |posArgs| == 0 && |kwArgs| == 0 {
        return "...";
      }
      var shown := ShownMandatory(numMandatoryPosArgs, |posArgs|);
      ghost var posItems, kwItems := PosItems(posArgs, shown), KwItems(kwArgs);
      metavar := AppendPositionalItems("", shown);
      assert metavar == Join(posItems);
      if |posArgs| > 0 && |kwArgs| > 0 {
        metavar := metavar + " ";
      }
      metavar := AppendKeywordItems(metavar);
      JoinGroups(posItems, kwItems);
      ghost var body := Join(posItems + kwItems);
      assert metavar == body;
      if allowExcessArgs {
        metavar := metavar + " [...]";
      }
      assert metavar == body + (if allowExcessArgs then " [...]" else "");
    }

    /** The first loop of `get_metavar_str`: the positional items, space-separated. */
    method AppendPositionalItems(lead: string, shown: int) returns (metavar: string)
      ensures metavar == lead + Join(PosItems(posArgs, shown))
    {
      ghost var items := PosItems(posArgs, shown);
      metavar := lead;
      var l := |posArgs|;
      for i := 0 to l
        invariant metavar == lead + JoinPrefix(items, i)
      {
        JoinPrefixStep(items, i);
        var item := if i < shown then posArgs[i].name else "[" + posArgs[i].name + "]";
        assert item == items[i];
        AppendAssoc(lead, JoinPrefix(items, i), item);
        metavar := metavar + item;
        if i < l - 1 {
          AppendAssoc(lead, JoinPrefix(items, i) + item, " ");
          metavar := metavar + " ";
        }
      }
      JoinPrefixAll(items);
    }

    /** The second loop of `get_metavar_str`: the keyword items, space-separated. */
    method AppendKeywordItems(lead: string) returns (metavar: string)
      ensures metavar == lead + Join(KwItems(kwArgs))
    {
      ghost var items := KwItems(kwArgs);
      metavar := lead;
      var l := |kwArgs|;
      for i := 0 to l
        invariant metavar == lead + JoinPrefix(items, i)
      {
        JoinPrefixStep(items, i);
        var item := kwArgs[i].name + "=" + Upper(kwArgs[i].name);
        if !kwArgs[i].mand {
          item := "[" + item + "]";
        }
        assert item == items[i];
        AppendAssoc(lead, JoinPrefix(items, i), item);
        metavar := metavar + item;
        if i < l - 1 {
          AppendAssoc(lead, JoinPrefix(items, i) + item, " ");
          metavar := metavar + " ";
        }
      }
      JoinPrefixAll(items);
    }

    /** `_check_mandatory_args`: nothing, or the error for the first missing required field. */
    method CheckMandatoryArgs(ns: Namespace) returns (missing: Option<MissingSubarg>)
      ensures missing == MandatoryCheck(posArgs, kwArgs, numMandatoryPosArgs, argName, ns)
    {
      for i := 0 to |posArgs|
        invariant FirstMissingPos(posArgs, numMandatoryPosArgs, ns, 0) ==
                  FirstMissingPos(posArgs, numMandatoryPosArgs, ns, i)
      {
        if numMandatoryPosArgs < 0 || i < numMandatoryPosArgs {
          if posArgs[i].name !in ns {
            var f := MissingPositional(i);
            return Some(MissingSubarg(f, ArgMessage(argName, MissingPositionalText) + posArgs[i].name));
          }
        }
      }
      for i := 0 to |kwArgs|
        invariant FirstMissingKw(kwArgs, ns, 0) == FirstMissingKw(kwArgs, ns, i)
      {
        if kwArgs[i].mand {
          if kwArgs[i].name !in ns {
            var f := MissingKeyword(i);
            return Some(MissingSubarg(f, ArgMessage(argName, MissingKeywordText) + kwArgs[i].name));
          }
        }
      }
      return None;
    }

    /**
      `parse_subargs`: one left-to-right pass binding tokens, then the
      excess lists, then the mandatory check.
     */
    method ParseSubargs(args: seq<string>) returns (outcome: ParseOutcome)
      ensures outcome == ParseSpec(posArgs, kwArgs, numMandatoryPosArgs, allowExcessArgs, argName, args)
    {
      var ns: Namespace := map[];
      var posCounter: nat := 0;
      var excessKwArgNames: seq<string> := [];
      var excessPosArgs: seq<string> := [];
      for i := 0 to |args|
        invariant ScanState(ns, posCounter, excessKwArgNames, excessPosArgs) == Scan(posArgs, kwArgs, args[..i])
      {
        var arg := args[i];
        assert args[..i + 1][..i] == args[..i];
        if Find(arg, '=') > 0 {
          var (name, value) := SplitAtFirstEq(arg);
          if !Declared(kwArgs, name) {
            excessKwArgNames := excessKwArgNames + [name];
          }
          ns := ns[name := Text(value)];
        } else if |posArgs| > posCounter {
          ns := ns[posArgs[posCounter].name := Text(arg)];
          posCounter := posCounter + 1;
        } else {
          excessPosArgs := excessPosArgs + [arg];
        }
      }
      assert args[..|args|] == args;
      ghost var st := ScanState(ns, posCounter, excessKwArgNames, excessPosArgs);
      var reported: seq<Report> := [];
      if excessPosArgs != [] {
        ns := ns[ExcessPosField := Items(excessPosArgs)];
        if !allowExcessArgs {
          reported := reported + [TooManyPositional(excessPosArgs)];
        }
      }
      if excessKwArgNames != [] {
        ns := ns[ExcessKwField := Items(excessKwArgNames)];
        if !allowExcessArgs {
          reported := reported + [TooManyKeyword(excessKwArgNames)];
        }
      }
      assert ns == FinalNamespace(st);
      assert reported == Reports(allowExcessArgs, st);
      var missing := CheckMandatoryArgs(ns);
      if missing.Some? {
        outcome := Rejected(missing.value, reported);
      } else {
        outcome := Parsed(ns, reported);
      }
    }
  }

  /**
    `__init__`: a parser, or the error raised when the mandatory count
    exceeds the positional fields; with the source's defaults.
   */
  method NewSubargParser(posEntries: seq<PosEntry> := [], kwEntries: seq<KwEntry> := [], numMandatory: int := -1,
                         allowExcess: bool := true, argName: Option<string> := None)
    returns (r: Result<SubargParser, ConfigError>)
    ensures r.Failure? <==> numMandatory > |posEntries|
    ensures r.Failure? ==> r.error == MandatoryExceedsPositional(numMandatory, |posEntries|)
    ensures r.Success? ==>
      && fresh(r.value) && r.value.numMandatoryPosArgs <= |r.value.posArgs|
      && r.value.posArgs == NormalizePos(posEntries) && r.value.kwArgs == NormalizeKw(kwEntries)
      && r.value.numMandatoryPosArgs == numMandatory && r.value.allowExcessArgs == allowExcess
      && r.value.argName == argName
  {
    if numMandatory > |posEntries| {
      return Failure(MandatoryExceedsPositional(numMandatory, |posEntries|));
    }
    var p := new SubargParser(posEntries, kwEntries, numMandatory, allowExcess, argName);
    return Success(p);
  }

  // ---------------------------------------------------------------------
  // What a parse produces

  /**
    Each excess list is stored exactly when it is non-empty, whatever
    `allow_excess_args` says, and holds the excess positional tokens, or
    the undeclared keyword names, in input order.
   */
  lemma ExcessFieldsStored(pos: seq<PSubarg>, kw: seq<KWSubarg>, args: seq<string>)
    ensures var ns := FinalNamespace(Scan(pos, kw, args));
      var ep := Drop(Positionals(args), |pos|);
      var ek := UndeclaredNames(kw, args);
      && ((ExcessPosField in ns && ns[ExcessPosField].Items?) <==> ep != [])
      && (ep != [] ==> ns[ExcessPosField] == Items(ep))
      && ((ExcessKwField in ns && ns[ExcessKwField].Items?) <==> ek != [])
      && (ek != [] ==> ns[ExcessKwField] == Items(ek))
  {
    ScanExcess(pos, kw, args);
    ScanAssignsText(pos, kw, args);
  }

  /**
    A "too many" error is reported for each non-empty excess list, the
    positional one first, and only when excess sub-arguments are not allowed.
   */
  lemma ExcessReported(pos: seq<PSubarg>, kw: seq<KWSubarg>, numMandatory: int, allowExcess: bool,
                       argName: Option<string>, args: seq<string>)
    ensures var ep := Drop(Positionals(args), |pos|);
      var ek := UndeclaredNames(kw, args);
      ParseSpec(pos, kw, numMandatory, allowExcess, argName, args).reported ==
        (if ep != [] && !allowExcess then [TooManyPositional(ep)] else []) +
        (if ek != [] && !allowExcess then [TooManyKeyword(ek)] else [])
  {
    ScanExcess(pos, kw, args);
  }

  /**
    A parse is rejected exactly when some required field is missing from
    the final namespace, and then for the first one: positional before
    keyword, each in declaration order.
   */
  lemma RejectedIffMissing(pos: seq<PSubarg>, kw: seq<KWSubarg>, numMandatory: int, allowExcess: bool,
                           argName: Option<string>, args: seq<string>)
    ensures var o := ParseSpec(pos, kw, numMandatory, allowExcess, argName, args);
      var ns := FinalNamespace(Scan(pos, kw, args));
      && (o.Parsed? <==> AllRequiredBound(pos, kw, numMandatory, ns))
      && (o.Parsed? ==> o.ns == ns)
      && (o.Rejected? ==> FirstMissing(pos, kw, numMandatory, ns) == Some(o.missing.field))
  {
  }

  /**
    With no declared fields and excess allowed, every parse succeeds
    without reports, and every token lands in an excess list.
   */
  lemma NoDeclarationsAcceptEverything(numMandatory: int, argName: Option<string>, args: seq<string>)
    ensures var o := ParseSpec([], [], numMandatory, true, argName, args);
      && o.Parsed? && o.reported == []
      && Scan([], [], args).excessPos == Positionals(args)
      && Scan([], [], args).excessKw == KeywordNames(args)
      && |Positionals(args)| + |KeywordNames(args)| == |args|
  {
    NoDeclarationsAllExcess(args);
    TokensPartition(args);
  }
}
