/**
  The left-to-right token pass of `parse_subargs` as a pure fold
  (`Scan`), independent reference definitions of what it produces
  (`Positionals`, `UndeclaredNames`, `Target`), and the lemmas that
  connect the two.
 */
module SubargTokens {
  import opened Wrappers
  import opened SubargRecords

  /** `s.find(c)` for a single character: the first index of `c` in `s`, or -1. */
  function Find(s: string, c: char): (r: int)
    ensures -1 <= r < |s|
    ensures r == -1 <==> c !in s
    ensures r >= 0 ==> s[r] == c && c !in s[..r]
  {
    if |s| == 0 then -1
    else if s[0] == c then 0
    else
      var k := Find(s[1..], c);
      assert s == [s[0]] + s[1..];
      if k < 0 then -1
      else
        assert s[..k + 1] == [s[0]] + s[1..][..k];
        k + 1
  }

  /** `Find` returns the index of the first occurrence. */
  lemma FindFirst(s: string, c: char, k: nat)
    requires k < |s| && s[k] == c && c !in s[..k]
    ensures Find(s, c) == k
  {
    assert s[k] == c;
  }

  /**
    A token is a keyword token exactly when its FIRST `=` stands at an
    index greater than 0: it contains `=` and does not start with one.
   */
  function IsKeywordToken(t: string): (r: bool)
    ensures r <==> |t| > 0 && t[0] != '=' && '=' in t
  {
    Find(t, '=') > 0
  }

  /** `t.split("=", 1)`: the text before the first `=` and everything after it. */
  function SplitAtFirstEq(t: string): (r: (string, string))
    requires '=' in t
    ensures r.0 + "=" + r.1 == t
    ensures '=' !in r.0
  {
    var k := Find(t, '=');
    assert t == t[..k] + [t[k]] + t[k + 1..];
    (t[..k], t[k + 1..])
  }

  /** The name of a keyword token; never empty. */
  function KeyOf(t: string): (r: string)
    requires IsKeywordToken(t)
    ensures r != [] && '=' !in r
  {
    var (name, value) := SplitAtFirstEq(t);
    assert t == name + "=" + value;
    name
  }

  /** The value of a keyword token; it may itself contain `=`. */
  function ValueOf(t: string): string
    requires IsKeywordToken(t)
  {
    SplitAtFirstEq(t).1
  }

  /**
    Splitting `name=value` at its first `=` gives back the name and the
    whole value, `=` characters included, whenever the name is non-empty
    and free of `=`.
   */
  lemma KeywordTokenRoundTrip(name: string, value: string)
    requires name != [] && '=' !in name
    ensures IsKeywordToken(name + "=" + value)
    ensures KeyOf(name + "=" + value) == name && ValueOf(name + "=" + value) == value
  {
    var t := name + "=" + value;
    assert t[..|name|] == name;
    assert t[|name| + 1..] == value;
    FindFirst(t, '=', |name|);
  }

  /** A namespace attribute: a plain string, or one of the two excess lists. */
  datatype Attr = Text(text: string) | Items(items: seq<string>)

  /** The `Namespace` object: attribute name to value; `hasattr` is `in`. */
  type Namespace = map<string, Attr>

  /** The loop state of `parse_subargs`. */
  datatype ScanState = ScanState(ns: Namespace, posCounter: nat, excessKw: seq<string>, excessPos: seq<string>)

  /**
    One iteration of the token loop: a keyword token binds its name to its
    value, and an undeclared name is also recorded as excess; any other
    token binds the next positional field in declaration order while one is
    left, advancing the counter, and is excess otherwise.
   */
  function Step(pos: seq<PSubarg>, kw: seq<KWSubarg>, st: ScanState, arg: string): ScanState
  {
    if Find(arg, '=') > 0 then
      var (name, value) := SplitAtFirstEq(arg);
      var excessKw := if !Declared(kw, name) then st.excessKw + [name] else st.excessKw;
      st.(ns := st.ns[name := Text(value)], excessKw := excessKw)
    else if |pos| > st.posCounter then
      st.(ns := st.ns[pos[st.posCounter].name := Text(arg)], posCounter := st.posCounter + 1)
    else
      st.(excessPos := st.excessPos + [arg])
  }

  /**
    The whole token loop over `args`, from the empty namespace: the counter
    never passes the declared positional fields.
   */
  function Scan(pos: seq<PSubarg>, kw: seq<KWSubarg>, args: seq<string>): (r: ScanState)
    ensures r.posCounter <= |pos|
    decreases |args|
  {
    if args == [] then ScanState(map[], 0, [], [])
    else Step(pos, kw, Scan(pos, kw, args[..|args| - 1]), args[|args| - 1])
  }

  // ---------------------------------------------------------------------
  // Reference definitions, written from the front and without a counter

  /** What one token contributes to `Positionals`: itself, unless it is a keyword token. */
  function PositionalOf(t: string): seq<string>
  {
    if IsKeywordToken(t) then [] else [t]
  }

  /** What one token contributes to `KeywordNames`: its name, if it is a keyword token. */
  function KeywordNameOf(t: string): seq<string>
  {
    if IsKeywordToken(t) then [KeyOf(t)] else []
  }

  /** What one token contributes to `UndeclaredNames`: its name, if it is an undeclared keyword token. */
  function UndeclaredOf(kw: seq<KWSubarg>, t: string): seq<string>
  {
    if IsKeywordToken(t) && !Declared(kw, KeyOf(t)) then [KeyOf(t)] else []
  }

  /** The non-keyword tokens of `args`, in input order. */
  function Positionals(args: seq<string>): seq<string>
    decreases |args|
  {
    if args == [] then [] else PositionalOf(args[0]) + Positionals(args[1..])
  }

  /** The names of the keyword tokens of `args`, in input order. */
  function KeywordNames(args: seq<string>): seq<string>
    decreases |args|
  {
    if args == [] then [] else KeywordNameOf(args[0]) + KeywordNames(args[1..])
  }

  /** The names of the keyword tokens whose name is not declared, in input order. */
  function UndeclaredNames(kw: seq<KWSubarg>, args: seq<string>): seq<string>
    decreases |args|
  {
    if args == [] then [] else UndeclaredOf(kw, args[0]) + UndeclaredNames(kw, args[1..])
  }

  /** `s` without its first `n` elements. */
  function Drop(s: seq<string>, n: nat): seq<string>
  {
    if n <= |s| then s[n..] else []
  }

  function Min(a: nat, b: nat): nat
  {
    if a <= b then a else b
  }

  /**
    The attribute token `i` of `args` assigns, if any: its own name for a
    keyword token; for the k-th positional token, the k-th declared
    positional name while there is one; nothing for an excess positional.
   */
  function Target(pos: seq<PSubarg>, args: seq<string>, i: nat): Option<string>
    requires i < |args|
  {
    if IsKeywordToken(args[i]) then Some(KeyOf(args[i]))
    else
      var k := |Positionals(args[..i])|;
      if k < |pos| then Some(pos[k].name) else None
  }

  /** The value token `t` assigns: a keyword token's value, or the whole positional token. */
  function BoundValue(t: string): string
  {
    if IsKeywordToken(t) then ValueOf(t) else t
  }

  /** Token `i` assigns an attribute that no later token assigns again. */
  ghost predicate LastBinder(pos: seq<PSubarg>, args: seq<string>, i: nat)
    requires i < |args|
  {
    Target(pos, args, i).Some? &&
    forall j :: i < j < |args| ==> Target(pos, args, j) != Target(pos, args, i)
  }

  // ---------------------------------------------------------------------
  // Lemmas

  lemma {:induction false} PositionalsAppend(a: seq<string>, x: string)
    ensures Positionals(a + [x]) == Positionals(a) + PositionalOf(x)
    decreases |a|
  {
    if a == [] {
      assert a + [x] == [x];
      assert [x][1..] == [];
    } else {
      var b := a[1..];
      assert (a + [x])[0] == a[0] && (a + [x])[1..] == b + [x];
      assert Positionals(a + [x]) == PositionalOf(a[0]) + Positionals(b + [x]);
      PositionalsAppend(b, x);
      assert Positionals(a) == PositionalOf(a[0]) + Positionals(b);
    }
  }

  lemma {:induction false} KeywordNamesAppend(a: seq<string>, x: string)
    ensures KeywordNames(a + [x]) == KeywordNames(a) + KeywordNameOf(x)
    decreases |a|
  {
    if a == [] {
      assert a + [x] == [x];
      assert [x][1..] == [];
    } else {
      var b := a[1..];
      assert (a + [x])[0] == a[0] && (a + [x])[1..] == b + [x];
      assert KeywordNames(a + [x]) == KeywordNameOf(a[0]) + KeywordNames(b + [x]);
      KeywordNamesAppend(b, x);
      assert KeywordNames(a) == KeywordNameOf(a[0]) + KeywordNames(b);
    }
  }

  lemma {:induction false} UndeclaredNamesAppend(kw: seq<KWSubarg>, a: seq<string>, x: string)
    ensures UndeclaredNames(kw, a + [x]) == UndeclaredNames(kw, a) + UndeclaredOf(kw, x)
    decreases |a|
  {
    if a == [] {
      assert a + [x] == [x];
      assert [x][1..] == [];
    } else {
      var b := a[1..];
      assert (a + [x])[0] == a[0] && (a + [x])[1..] == b + [x];
      assert UndeclaredNames(kw, a + [x]) == UndeclaredOf(kw, a[0]) + UndeclaredNames(kw, b + [x]);
      UndeclaredNamesAppend(kw, b, x);
      assert UndeclaredNames(kw, a) == UndeclaredOf(kw, a[0]) + UndeclaredNames(kw, b);
    }
  }

  /** Every token is either positional or a keyword token, never both. */
  lemma {:induction false} TokensPartition(args: seq<string>)
    ensures |Positionals(args)| + |KeywordNames(args)| == |args|
    decreases |args|
  {
    if args != [] {
      TokensPartition(args[1..]);
    }
  }

  /**
    The excess lists of the pass: the positional tokens after the first
    |pos| of them, in input order, and the undeclared keyword names, in
    input order; the counter is the number of positionals bound.
   */
  lemma {:induction false} ScanExcess(pos: seq<PSubarg>, kw: seq<KWSubarg>, args: seq<string>)
    ensures Scan(pos, kw, args).posCounter == Min(|Positionals(args)|, |pos|)
    ensures Scan(pos, kw, args).excessPos == Drop(Positionals(args), |pos|)
    ensures Scan(pos, kw, args).excessKw == UndeclaredNames(kw, args)
    decreases |args|
  {
    if args != [] {
      var a, x := args[..|args| - 1], args[|args| - 1];
      assert args == a + [x];
      ScanExcess(pos, kw, a);
      ScanSnoc(pos, kw, a, x);
      StepExcess(pos, kw, Scan(pos, kw, a), a, x);
    }
  }

  /** Scanning one more token is one more loop step. */
  lemma ScanSnoc(pos: seq<PSubarg>, kw: seq<KWSubarg>, a: seq<string>, x: string)
    ensures Scan(pos, kw, a + [x]) == Step(pos, kw, Scan(pos, kw, a), x)
  {
    assert (a + [x])[..|a|] == a;
  }

  /** A token without `=` binds the next declared positional field, or is excess when none is left. */
  lemma ScanPositionalToken(pos: seq<PSubarg>, kw: seq<KWSubarg>, a: seq<string>, x: string)
    requires !IsKeywordToken(x)
    ensures var st := Scan(pos, kw, a);
      Scan(pos, kw, a + [x]) ==
        if st.posCounter < |pos| then st.(ns := st.ns[pos[st.posCounter].name := Text(x)], posCounter := st.posCounter + 1)
        else st.(excessPos := st.excessPos + [x])
  {
    ScanSnoc(pos, kw, a, x);
  }

  /** A token `name=value` binds `name` to `value`, and lists `name` as excess when it is not declared. */
  lemma ScanKeywordToken(pos: seq<PSubarg>, kw: seq<KWSubarg>, a: seq<string>, name: string, value: string)
    requires name != [] && '=' !in name
    ensures var st := Scan(pos, kw, a);
      Scan(pos, kw, a + [name + "=" + value]) ==
        st.(ns := st.ns[name := Text(value)], excessKw := if Declared(kw, name) then st.excessKw else st.excessKw + [name])
  {
    ScanSnoc(pos, kw, a, name + "=" + value);
    KeywordTokenRoundTrip(name, value);
  }

  /** One loop step keeps the counter and both excess lists in step with the reference definitions. */
  lemma StepExcess(pos: seq<PSubarg>, kw: seq<KWSubarg>, st: ScanState, a: seq<string>, x: string)
    requires st.posCounter == Min(|Positionals(a)|, |pos|)
    requires st.excessPos == Drop(Positionals(a), |pos|)
    requires st.excessKw == UndeclaredNames(kw, a)
    ensures Step(pos, kw, st, x).posCounter == Min(|Positionals(a + [x])|, |pos|)
    ensures Step(pos, kw, st, x).excessPos == Drop(Positionals(a + [x]), |pos|)
    ensures Step(pos, kw, st, x).excessKw == UndeclaredNames(kw, a + [x])
  {
    PositionalsAppend(a, x);
    UndeclaredNamesAppend(kw, a, x);
    var ps := Positionals(a);
    var next := Step(pos, kw, st, x);
    if IsKeywordToken(x) {
      assert Positionals(a + [x]) == ps;
      assert next.posCounter == st.posCounter && next.excessPos == st.excessPos;
    } else if |pos| > st.posCounter {
      assert Positionals(a + [x]) == ps + [x];
      assert next.posCounter == st.posCounter + 1 && next.excessPos == st.excessPos && next.excessKw == st.excessKw;
    } else {
      assert Positionals(a + [x]) == ps + [x];
      assert next.posCounter == st.posCounter && next.excessKw == st.excessKw;
      assert Drop(ps + [x], |pos|) == Drop(ps, |pos|) + [x];
    }
  }

  /** Every attribute the pass assigns is a plain string. */
  lemma {:induction false} ScanAssignsText(pos: seq<PSubarg>, kw: seq<KWSubarg>, args: seq<string>)
    ensures forall n :: n in Scan(pos, kw, args).ns ==> Scan(pos, kw, args).ns[n].Text?
    decreases |args|
  {
    if args != [] {
      var a := args[..|args| - 1];
      ScanAssignsText(pos, kw, a);
      StepAssignsText(pos, kw, Scan(pos, kw, a), args[|args| - 1]);
    }
  }

  lemma StepAssignsText(pos: seq<PSubarg>, kw: seq<KWSubarg>, st: ScanState, arg: string)
    requires forall n :: n in st.ns ==> st.ns[n].Text?
    ensures forall n :: n in Step(pos, kw, st, arg).ns ==> Step(pos, kw, st, arg).ns[n].Text?
  {
    var ns := Step(pos, kw, st, arg).ns;
    if Find(arg, '=') > 0 {
      assert ns == st.ns[SplitAtFirstEq(arg).0 := Text(SplitAtFirstEq(arg).1)];
    } else if |pos| > st.posCounter {
      assert ns == st.ns[pos[st.posCounter].name := Text(arg)];
    } else {
      assert ns == st.ns;
    }
  }

  lemma TargetOfPrefix(pos: seq<PSubarg>, args: seq<string>, n: nat, i: nat)
    requires i < n <= |args|
    ensures Target(pos, args[..n], i) == Target(pos, args, i)
  {
    assert args[..n][..i] == args[..i];
  }

  /** The attribute the last token assigns, and the namespace after it. */
  lemma ScanLast(pos: seq<PSubarg>, kw: seq<KWSubarg>, args: seq<string>)
    requires args != []
    ensures var m := |args| - 1;
      var st := Scan(pos, kw, args[..m]);
      Scan(pos, kw, args).ns ==
        match Target(pos, args, m)
        case Some(n) => st.ns[n := Text(BoundValue(args[m]))]
        case None => st.ns
  {
    var m := |args| - 1;
    var a, x := args[..m], args[m];
    ScanExcess(pos, kw, a);
    assert args[..m] == a;
    var st := Scan(pos, kw, a);
    assert Scan(pos, kw, args) == Step(pos, kw, st, x);
  }

  lemma TargetsOfPrefix(pos: seq<PSubarg>, args: seq<string>)
    requires args != []
    ensures forall i :: 0 <= i < |args| - 1 ==> Target(pos, args[..|args| - 1], i) == Target(pos, args, i)
  {
    forall i | 0 <= i < |args| - 1
      ensures Target(pos, args[..|args| - 1], i) == Target(pos, args, i)
    {
      TargetOfPrefix(pos, args, |args| - 1, i);
    }
  }

  /** Some token of `args` assigns the attribute `n`. */
  ghost predicate Assigned(pos: seq<PSubarg>, args: seq<string>, n: string)
  {
    exists i :: 0 <= i < |args| && Target(pos, args, i) == Some(n)
  }

  /** An attribute is present after the pass exactly when some token assigns it. */
  lemma {:induction false} ScanBindsKey(pos: seq<PSubarg>, kw: seq<KWSubarg>, args: seq<string>, n: string)
    ensures n in Scan(pos, kw, args).ns <==> Assigned(pos, args, n)
    decreases |args|
  {
    if args != [] {
      var m := |args| - 1;
      var a := args[..m];
      ScanBindsKey(pos, kw, a, n);
      ScanLast(pos, kw, args);
      TargetsOfPrefix(pos, args);
      if Assigned(pos, a, n) {
        var i :| 0 <= i < m && Target(pos, a, i) == Some(n);
        assert Target(pos, args, i) == Some(n);
      }
      if Assigned(pos, args, n) {
        var i :| 0 <= i < |args| && Target(pos, args, i) == Some(n);
        if i < m {
          assert Target(pos, a, i) == Some(n);
        }
      }
    }
  }

  /** A last binder before the final token is still a last binder without that token. */
  lemma LastBinderOfPrefix(pos: seq<PSubarg>, args: seq<string>, i: nat)
    requires i < |args| - 1 && LastBinder(pos, args, i)
    ensures LastBinder(pos, args[..|args| - 1], i)
    ensures Target(pos, args[..|args| - 1], i) == Target(pos, args, i)
  {
    var m := |args| - 1;
    TargetOfPrefix(pos, args, m, i);
    forall j | i < j < m
      ensures Target(pos, args[..m], j) != Target(pos, args[..m], i)
    {
      TargetOfPrefix(pos, args, m, j);
    }
  }

  /** The attribute a last binder assigns holds that token's value after the pass. */
  lemma {:induction false} ScanBindsLastValue(pos: seq<PSubarg>, kw: seq<KWSubarg>, args: seq<string>, i: nat)
    requires i < |args| && LastBinder(pos, args, i)
    ensures Target(pos, args, i).value in Scan(pos, kw, args).ns
    ensures Scan(pos, kw, args).ns[Target(pos, args, i).value] == Text(BoundValue(args[i]))
    decreases |args|
  {
    var m := |args| - 1;
    var a := args[..m];
    var name := Target(pos, args, i).value;
    var oldNs := Scan(pos, kw, a).ns;
    if i < m {
      assert name in oldNs && oldNs[name] == Text(BoundValue(args[i])) by {
        LastBinderOfPrefix(pos, args, i);
        ScanBindsLastValue(pos, kw, a, i);
        assert a[i] == args[i];
      }
      assert Target(pos, args, m) != Some(name);
    }
    ScanLast(pos, kw, args);
    ValueAfterUpdate(oldNs, Scan(pos, kw, args).ns, Target(pos, args, m), Text(BoundValue(args[m])),
                     name, Text(BoundValue(args[i])));
  }

  /** An attribute keeps its value through an update of another name, and takes the value of an update of its own name. */
  lemma ValueAfterUpdate(oldNs: Namespace, ns: Namespace, t: Option<string>, v: Attr, name: string, value: Attr)
    requires ns == match t case Some(n) => oldNs[n := v] case None => oldNs
    requires t == Some(name) ==> v == value
    requires t != Some(name) ==> name in oldNs && oldNs[name] == value
    ensures name in ns && ns[name] == value
  {
  }

  /**
    What the pass binds: an attribute is present exactly when some token
    assigns it, and then it holds the value of the LAST token that does
    (a later keyword token with the same name overwrites an earlier one).
   */
  lemma ScanBindings(pos: seq<PSubarg>, kw: seq<KWSubarg>, args: seq<string>)
    ensures forall n :: n in Scan(pos, kw, args).ns <==> Assigned(pos, args, n)
    ensures forall i :: 0 <= i < |args| && LastBinder(pos, args, i) ==>
      Target(pos, args, i).value in Scan(pos, kw, args).ns &&
      Scan(pos, kw, args).ns[Target(pos, args, i).value] == Text(BoundValue(args[i]))
  {
    forall n
      ensures n in Scan(pos, kw, args).ns <==> Assigned(pos, args, n)
    {
      ScanBindsKey(pos, kw, args, n);
    }
    forall i | 0 <= i < |args| && LastBinder(pos, args, i)
      ensures Target(pos, args, i).value in Scan(pos, kw, args).ns &&
        Scan(pos, kw, args).ns[Target(pos, args, i).value] == Text(BoundValue(args[i]))
    {
      ScanBindsLastValue(pos, kw, args, i);
    }
  }

  /** Every keyword token is bound, whether or not its name is declared. */
  lemma KeywordTokensAlwaysBound(pos: seq<PSubarg>, kw: seq<KWSubarg>, args: seq<string>, i: nat)
    requires i < |args| && IsKeywordToken(args[i])
    ensures KeyOf(args[i]) in Scan(pos, kw, args).ns
  {
    ScanBindsKey(pos, kw, args, KeyOf(args[i]));
    assert Target(pos, args, i) == Some(KeyOf(args[i]));
  }

  /**
    With pairwise distinct positional names, and no keyword token naming
    `pos[k]`, the k-th positional token is bound to `pos[k].name`; when
    fewer than k+1 positional tokens are given, `pos[k].name` stays unbound.
   */
  lemma {:induction false} ScanBindsPositionalsInOrder(pos: seq<PSubarg>, kw: seq<KWSubarg>, args: seq<string>, k: nat)
    requires k < |pos|
    requires forall i, j :: 0 <= i < j < |pos| ==> pos[i].name != pos[j].name
    requires forall i :: 0 <= i < |args| && IsKeywordToken(args[i]) ==> KeyOf(args[i]) != pos[k].name
    ensures k < |Positionals(args)| ==>
      pos[k].name in Scan(pos, kw, args).ns && Scan(pos, kw, args).ns[pos[k].name] == Text(Positionals(args)[k])
    ensures k >= |Positionals(args)| ==> pos[k].name !in Scan(pos, kw, args).ns
    decreases |args|
  {
    if args != [] {
      var m := |args| - 1;
      var a, x := args[..m], args[m];
      assert args == a + [x];
      forall i | 0 <= i < |a| && IsKeywordToken(a[i])
        ensures KeyOf(a[i]) != pos[k].name
      {
        assert a[i] == args[i];
      }
      ScanBindsPositionalsInOrder(pos, kw, a, k);
      ScanExcess(pos, kw, a);
      ScanSnoc(pos, kw, a, x);
      PositionalsAppend(a, x);
      StepKeepsPositional(pos, kw, Scan(pos, kw, a), x, Positionals(a), k);
    }
  }

  /**
    One loop step, on a state whose counter has consumed the positional
    tokens `ps`, keeps field k bound to the k-th of them, or unbound while
    it is not given.
   */
  lemma StepKeepsPositional(pos: seq<PSubarg>, kw: seq<KWSubarg>, st: ScanState, x: string, ps: seq<string>, k: nat)
    requires k < |pos|
    requires forall i, j :: 0 <= i < j < |pos| ==> pos[i].name != pos[j].name
    requires st.posCounter == Min(|ps|, |pos|)
    requires IsKeywordToken(x) ==> KeyOf(x) != pos[k].name
    requires k < |ps| ==> pos[k].name in st.ns && st.ns[pos[k].name] == Text(ps[k])
    requires k >= |ps| ==> pos[k].name !in st.ns
    ensures var ps', ns' := ps + PositionalOf(x), Step(pos, kw, st, x).ns;
      && (k < |ps'| ==> pos[k].name in ns' && ns'[pos[k].name] == Text(ps'[k]))
      && (k >= |ps'| ==> pos[k].name !in ns')
  {
    var ps', ns' := ps + PositionalOf(x), Step(pos, kw, st, x).ns;
    if IsKeywordToken(x) {
      assert ns' == st.ns[KeyOf(x) := Text(ValueOf(x))];
      assert ps' == ps;
    } else if |ps| < |pos| {
      assert ns' == st.ns[pos[|ps|].name := Text(x)];
      assert ps' == ps + [x];
      assert k != |ps| ==> pos[|ps|].name != pos[k].name;
    } else {
      assert ns' == st.ns;
      assert ps' == ps + [x];
    }
  }

  /** With no declared fields at all, every token lands in an excess list. */
  lemma NoDeclarationsAllExcess(args: seq<string>)
    ensures Scan([], [], args).excessPos == Positionals(args)
    ensures Scan([], [], args).excessKw == KeywordNames(args)
  {
    ScanExcess([], [], args);
    NoDeclarationsUndeclared(args);
  }

  lemma {:induction false} NoDeclarationsUndeclared(args: seq<string>)
    ensures UndeclaredNames([], args) == KeywordNames(args)
    decreases |args|
  {
    if args != [] {
      NoDeclarationsUndeclared(args[1..]);
    }
  }
}
