/**
  Concrete parses: the configurations of `tests/t_init.py`, and the
  inputs that show how the source treats tokens, names and messages.
 */
module SubargScenarios {
  import opened Wrappers
  import opened SubargRecords
  import opened SubargTokens
  import opened SubargMandatory
  import opened SubargParsing

  /** Only the first `=` splits; a token whose first `=` is its first character is positional. */
  lemma FirstEqualsSplits()
    ensures IsKeywordToken("a=b=c") && KeyOf("a=b=c") == "a" && ValueOf("a=b=c") == "b=c"
    ensures !IsKeywordToken("=a=b")
    ensures !IsKeywordToken("a.txt")
  {
    assert "a" + "=" + "b=c" == "a=b=c";
    KeywordTokenRoundTrip("a", "b=c");
  }

  const InOut: seq<PSubarg> := [PSubarg("in_file", None), PSubarg("out_file", None)]

  /** One mandatory positional of two: a single token binds `in_file` only. */
  lemma OneOfTwoMandatoryBound()
    ensures ParseSpec(InOut, [], 1, true, None, ["a.txt"]) == Parsed(map["in_file" := Text("a.txt")], [])
  {
    ScanPositionalToken(InOut, [], [], "a.txt");
    assert [] + ["a.txt"] == ["a.txt"];
  }

  /** One mandatory positional of two and no tokens: `in_file` is missing. */
  lemma OneOfTwoMandatoryMissing()
    ensures ParseSpec(InOut, [], 1, true, None, []) ==
      Rejected(MissingSubarg(MissingPositional(0), "Missing mandatory positional subarg in_file"), [])
  {
  }

  const LTerm: seq<KWSubarg> := [KWSubarg("lterm", false, None)]

  /** `lterm` is the one declared keyword name of the `tests/t_init.py` parsers. */
  lemma LTermDeclared(n: string)
    ensures Declared(LTerm, n) <==> n == "lterm"
  {
    assert CompareArgs(Kw(LTerm[0]), Str(n)) <==> n == "lterm";
  }

  /** The scan of a declared optional keyword token followed by an undeclared one. */
  lemma UndeclaredKeywordScan(declared: string, v1: string, other: string, v2: string)
    requires declared != [] && '=' !in declared && other != [] && '=' !in other && other != declared
    ensures Scan(InOut, [KWSubarg(declared, false, None)], [declared + "=" + v1, other + "=" + v2]) ==
      ScanState(map[declared := Text(v1), other := Text(v2)], 0, [other], [])
  {
    var kw := [KWSubarg(declared, false, None)];
    var t1, t2 := declared + "=" + v1, other + "=" + v2;
    var st1 := ScanState(map[declared := Text(v1)], 0, [], []);
    assert Scan(InOut, kw, [t1]) == st1 by {
      ScanKeywordToken(InOut, kw, [], declared, v1);
      assert [] + [t1] == [t1];
      assert CompareArgs(Kw(kw[0]), Str(declared));
    }
    ScanKeywordToken(InOut, kw, [t1], other, v2);
    assert [t1] + [t2] == [t1, t2];
    assert !Declared(kw, other);
  }

  /**
    A declared optional keyword and an undeclared one: both are bound, and
    the undeclared name is also listed as an excess keyword name.
   */
  lemma UndeclaredKeywordKept(declared: string, v1: string, other: string, v2: string)
    requires declared != [] && '=' !in declared && other != [] && '=' !in other && other != declared
    ensures var kw := [KWSubarg(declared, false, None)];
      var o := ParseSpec(InOut, kw, 0, true, None, [declared + "=" + v1, other + "=" + v2]);
      && o.Parsed?
      && o.ns == map[declared := Text(v1), other := Text(v2), ExcessKwField := Items([other])]
      && o.reported == []
  {
    var kw := [KWSubarg(declared, false, None)];
    UndeclaredKeywordScan(declared, v1, other, v2);
    var ns := map[declared := Text(v1), other := Text(v2), ExcessKwField := Items([other])];
    assert FinalNamespace(ScanState(map[declared := Text(v1), other := Text(v2)], 0, [other], [])) == ns;
    assert MandatoryCheck(InOut, kw, 0, None, ns) == None by {
      assert AllRequiredBound(InOut, kw, 0, ns);
    }
  }

  /**
    The `--translate` parser given three positional tokens: the third is
    excess, stored, and reported as too many since excess is not allowed.
   */
  lemma ThirdPositionalIsExcess(p1: string, p2: string, p3: string, argName: Option<string>)
    requires '=' !in p1 && '=' !in p2 && '=' !in p3
    ensures var o := ParseSpec(InOut, LTerm, 1, false, argName, [p1, p2, p3]);
      && o.Parsed?
      && o.ns == map["in_file" := Text(p1), "out_file" := Text(p2), ExcessPosField := Items([p3])]
      && o.reported == [TooManyPositional([p3])]
  {
    XlatePositionalScan(p1, p2, p3);
    var st := ScanState(map["in_file" := Text(p1), "out_file" := Text(p2)], 2, [], [p3]);
    var ns := st.ns[ExcessPosField := Items([p3])];
    assert FinalNamespace(st) == ns;
    assert Reports(false, st) == [TooManyPositional([p3])];
    assert MandatoryCheck(InOut, LTerm, 1, argName, ns) == None by {
      assert AllRequiredBound(InOut, LTerm, 1, ns);
    }
  }

  /** The three positional tokens of the last parse of `tests/t_init.py`. */
  lemma XlatePositionalScan(p1: string, p2: string, p3: string)
    requires '=' !in p1 && '=' !in p2 && '=' !in p3
    ensures Scan(InOut, LTerm, [p1, p2, p3]) ==
      ScanState(map["in_file" := Text(p1), "out_file" := Text(p2)], 2, [], [p3])
  {
    var st1 := ScanState(map["in_file" := Text(p1)], 1, [], []);
    assert Scan(InOut, LTerm, [p1]) == st1 by {
      ScanPositionalToken(InOut, LTerm, [], p1);
      assert [] + [p1] == [p1];
    }
    var st2 := ScanState(st1.ns["out_file" := Text(p2)], 2, [], []);
    assert Scan(InOut, LTerm, [p1, p2]) == st2 by {
      ScanPositionalToken(InOut, LTerm, [p1], p2);
      assert [p1] + [p2] == [p1, p2];
    }
    assert Scan(InOut, LTerm, [p1, p2, p3]) == st2.(excessPos := [p3]) by {
      ScanPositionalToken(InOut, LTerm, [p1, p2], p3);
      assert [p1, p2] + [p3] == [p1, p2, p3];
    }
  }

  /** A declared `lterm=` token after the positionals of the `--xlate` call. */
  lemma XlateLTermStep(a: seq<string>, v: string, st: ScanState)
    requires Scan(InOut, LTerm, a) == st
    ensures Scan(InOut, LTerm, a + ["lterm=" + v]) == st.(ns := st.ns["lterm" := Text(v)])
  {
    ScanKeywordToken(InOut, LTerm, a, "lterm", v);
    assert "lterm" + "=" == "lterm=";
    LTermDeclared("lterm");
  }

  /** An undeclared keyword token: bound, and its name listed as excess. */
  lemma XlateUndeclaredStep(a: seq<string>, other: string, w: string, st: ScanState)
    requires other != [] && '=' !in other && other != "lterm"
    requires Scan(InOut, LTerm, a) == st
    ensures Scan(InOut, LTerm, a + [other + "=" + w]) ==
      st.(ns := st.ns[other := Text(w)], excessKw := st.excessKw + [other])
  {
    ScanKeywordToken(InOut, LTerm, a, other, w);
    LTermDeclared(other);
  }

  /** The scan of the last parse of `tests/t_init.py`, token by token. */
  lemma XlateScan(p1: string, p2: string, p3: string, v: string, other: string, w: string)
    requires '=' !in p1 && '=' !in p2 && '=' !in p3
    requires other != [] && '=' !in other && other != "lterm"
    ensures Scan(InOut, LTerm, [p1, p2, p3, "lterm=" + v, other + "=" + w]) ==
      ScanState(map["in_file" := Text(p1), "out_file" := Text(p2), "lterm" := Text(v), other := Text(w)], 2, [other], [p3])
  {
    var t4, t5 := "lterm=" + v, other + "=" + w;
    XlatePositionalScan(p1, p2, p3);
    var st3 := ScanState(map["in_file" := Text(p1), "out_file" := Text(p2)], 2, [], [p3]);
    XlateLTermStep([p1, p2, p3], v, st3);
    assert [p1, p2, p3] + [t4] == [p1, p2, p3, t4];
    var st4 := st3.(ns := st3.ns["lterm" := Text(v)]);
    XlateUndeclaredStep([p1, p2, p3, t4], other, w, st4);
    assert [p1, p2, p3, t4] + [t5] == [p1, p2, p3, t4, t5];
  }

  /**
    The last parse of `tests/t_init.py`: three positional tokens for two
    optional fields, the declared `lterm` keyword and an undeclared one.
   */
  lemma XlateWithExtras(p1: string, p2: string, p3: string, v: string, other: string, w: string)
    requires '=' !in p1 && '=' !in p2 && '=' !in p3
    requires other != [] && '=' !in other && other != "lterm"
    ensures var o := ParseSpec(InOut, LTerm, 0, true, None, [p1, p2, p3, "lterm=" + v, other + "=" + w]);
      && o.Parsed?
      && o.ns == map["in_file" := Text(p1), "out_file" := Text(p2), "lterm" := Text(v), other := Text(w),
                     ExcessPosField := Items([p3]), ExcessKwField := Items([other])]
      && o.reported == []
  {
    XlateScan(p1, p2, p3, v, other, w);
  }

  /** A keyword token named like a positional field satisfies that mandatory positional. */
  lemma KeywordTokenSatisfiesPositional(name: string, value: string)
    requires name != [] && '=' !in name
    ensures ParseSpec([PSubarg(name, None)], [], -1, true, None, [name + "=" + value]) ==
      Parsed(map[name := Text(value), ExcessKwField := Items([name])], [])
  {
    var pos, t := [PSubarg(name, None)], name + "=" + value;
    var st := ScanState(map[name := Text(value)], 0, [name], []);
    assert Scan(pos, [], [t]) == st by {
      ScanKeywordToken(pos, [], [], name, value);
      assert [] + [t] == [t];
      assert !Declared([], name);
    }
    var ns := map[name := Text(value), ExcessKwField := Items([name])];
    assert FinalNamespace(st) == ns;
    assert MandatoryCheck(pos, [], -1, None, ns) == None by {
      assert AllRequiredBound(pos, [], -1, ns);
    }
  }

  /** The `--translate` call of `tests/t_init.py` with only an `lterm=` token binds `lterm` alone. */
  lemma LTermOnlyScan(v: string)
    ensures Scan(InOut, LTerm, ["lterm=" + v]) == ScanState(map["lterm" := Text(v)], 0, [], [])
  {
    XlateLTermStep([], v, ScanState(map[], 0, [], []));
    assert [] + ["lterm=" + v] == ["lterm=" + v];
  }

  /** With only `lterm` bound, the first missing field is `in_file`, tagged with the option's name. */
  lemma TranslateMissingInFile(v: string, option: string)
    requires option != ""
    ensures MandatoryCheck(InOut, LTerm, 1, Some(option), map["lterm" := Text(v)]) ==
      Some(MissingSubarg(MissingPositional(0), "[" + option + "] " + MissingPositionalText + "in_file"))
  {
    var ns := map["lterm" := Text(v)];
    assert FirstMissing(InOut, LTerm, 1, ns) == Some(MissingPositional(0)) by {
      assert "in_file" !in ns;
    }
  }

  /**
    The `--translate` call with only `lterm=`: rejected for `in_file`, and
    the message is tagged with the owning option's name.
   */
  lemma MissingFieldTagged(v: string, option: string)
    requires option != ""
    ensures ParseSpec(InOut, LTerm, 1, false, Some(option), ["lterm=" + v]) ==
      Rejected(MissingSubarg(MissingPositional(0), "[" + option + "] " + MissingPositionalText + "in_file"), [])
  {
    LTermOnlyScan(v);
    TranslateMissingInFile(v, option);
    var st := ScanState(map["lterm" := Text(v)], 0, [], []);
    assert FinalNamespace(st) == st.ns;
    assert Reports(false, st) == [];
  }

  /**
    A mandatory keyword missing where no positional field is declared:
    the source's message raises IndexError, the corrected one names it.
   */
  lemma MissingKeywordWithoutPositionals()
    ensures FirstMissing([], [KWSubarg("mode", true, None)], -1, map[]) == Some(MissingKeyword(0))
    ensures MissingMessageAsWritten([], [KWSubarg("mode", true, None)], None, MissingKeyword(0)) == Failure(IndexError)
    ensures MissingMessage([], [KWSubarg("mode", true, None)], None, MissingKeyword(0)) ==
      "Missing mandatory keyword subarg mode"
  {
  }

  /**
    The whole parse with a missing mandatory keyword and no positional
    field: as written it raises IndexError, after reporting nothing;
    corrected, it is rejected with a message naming the keyword.
   */
  lemma MissingKeywordParseRaises()
    ensures ParseSpecAsWritten([], [KWSubarg("mode", true, None)], -1, true, None, []) == Raised(IndexError, [])
    ensures ParseSpec([], [KWSubarg("mode", true, None)], -1, true, None, []) ==
      Rejected(MissingSubarg(MissingKeyword(0), "Missing mandatory keyword subarg mode"), [])
  {
    MissingKeywordWithoutPositionals();
  }

  /**
    A mandatory keyword missing beside a bound positional: the source's
    message names the positional field instead.
   */
  lemma MissingKeywordNamesPositional()
    ensures FirstMissing([PSubarg("in_file", None)], [KWSubarg("mode", true, None)], -1, map["in_file" := Text("a.txt")])
      == Some(MissingKeyword(0))
    ensures MissingMessageAsWritten([PSubarg("in_file", None)], [KWSubarg("mode", true, None)], None, MissingKeyword(0))
      == Success("Missing mandatory keyword subarg in_file")
    ensures MissingMessage([PSubarg("in_file", None)], [KWSubarg("mode", true, None)], None, MissingKeyword(0))
      == "Missing mandatory keyword subarg mode"
  {
    var ns := map["in_file" := Text("a.txt")];
    assert "mode" !in ns;
    assert MissingKeywordText + "in_file" == "Missing mandatory keyword subarg in_file";
    assert MissingKeywordText + "mode" == "Missing mandatory keyword subarg mode";
  }
}
