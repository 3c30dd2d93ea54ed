/**
  `get_metavar_str`: the usage string built from the declared fields.
 */
module SubargMetavar {
  import opened Wrappers
  import opened SubargRecords
  import opened SubargTokens
  import opened SubargMandatory

  /** `str.upper` on one character, for the ASCII letters. */
  function UpperChar(c: char): char
  {
    if 'a' <= c <= 'z' then (c as int - 32) as char else c
  }

  /** `str.upper` on ASCII text, one character at a time. */
  function Upper(s: string): (r: string)
    ensures |r| == |s|
  {
    seq(|s|, i requires 0 <= i < |s| => UpperChar(s[i]))
  }

  /** After `Upper` no lower-case ASCII letter is left, and every other character is unchanged. */
  lemma UpperCase(s: string)
    ensures forall i :: 0 <= i < |s| ==> !('a' <= Upper(s)[i] <= 'z')
    ensures forall i :: 0 <= i < |s| && !('a' <= s[i] <= 'z') ==> Upper(s)[i] == s[i]
  {
  }

  /** A positional item: the bare name, or the name in brackets when optional. */
  function PosItem(p: PSubarg, bare: bool): string
  {
    if bare then p.name else "[" + p.name + "]"
  }

  /** A keyword item: `name=NAME`, in brackets when the field is optional. */
  function KwItem(k: KWSubarg): string
  {
    var item := k.name + "=" + Upper(k.name);
    if k.mand then item else "[" + item + "]"
  }

  /** The positional items, the first `shown` of them bare. */
  function PosItems(pos: seq<PSubarg>, shown: int): (r: seq<string>)
    ensures |r| == |pos|
    ensures forall i :: 0 <= i < |pos| ==> r[i] == PosItem(pos[i], i < shown)
  {
    seq(|pos|, i requires 0 <= i < |pos| => PosItem(pos[i], i < shown))
  }

  function KwItems(kw: seq<KWSubarg>): (r: seq<string>)
    ensures |r| == |kw|
    ensures forall j :: 0 <= j < |kw| ==> r[j] == KwItem(kw[j])
  {
    seq(|kw|, j requires 0 <= j < |kw| => KwItem(kw[j]))
  }

  /** The items separated by single spaces. */
  function Join(items: seq<string>): string
    decreases |items|
  {
    if |items| == 0 then ""
    else if |items| == 1 then items[0]
    else Join(items[..|items| - 1]) + " " + items[|items| - 1]
  }

  /**
    The usage string: `...` when nothing is declared (whatever
    `allow_excess_args` says); otherwise all positional then all keyword
    items separated by single spaces, followed by ` [...]` when excess
    sub-arguments are allowed.
   */
  function Metavar(pos: seq<PSubarg>, kw: seq<KWSubarg>, shown: int, allowExcess: bool): (r: string)
    ensures pos == [] && kw == [] ==> r == "..."
    ensures (pos != [] || kw != []) && allowExcess ==> |r| >= 6 && r[|r| - 6..] == " [...]"
  {
    if pos == [] && kw == [] then "..."
    else Join(PosItems(pos, shown) + KwItems(kw)) + (if allowExcess then " [...]" else "")
  }

  /** How many leading positional items the usage string shows bare, as intended. */
  function ShownMandatory(numMandatory: int, n: nat): int
  {
    if numMandatory < 0 then n else numMandatory
  }

  /**
    `get_metavar_str` as written: positional `i` is bare iff
    `i < num_mandatory_pos_args`, so a negative count ("all mandatory")
    brackets every positional, as if none were mandatory.
   */
  function MetavarAsWritten(pos: seq<PSubarg>, kw: seq<KWSubarg>, numMandatory: int, allowExcess: bool): (r: string)
    ensures numMandatory < 0 ==> r == Metavar(pos, kw, 0, allowExcess)
  {
    assert numMandatory < 0 ==> PosItems(pos, numMandatory) == PosItems(pos, 0);
    Metavar(pos, kw, numMandatory, allowExcess)
  }

  /**
    `get_metavar_str` as intended: positional `i` is bare iff it is
    required. A negative count shows every positional bare; any other
    count gives the string as written.
   */
  function MetavarCorrected(pos: seq<PSubarg>, kw: seq<KWSubarg>, numMandatory: int, allowExcess: bool): (r: string)
    ensures numMandatory < 0 ==> r == Metavar(pos, kw, |pos|, allowExcess)
    ensures numMandatory >= 0 ==> r == MetavarAsWritten(pos, kw, numMandatory, allowExcess)
  {
    Metavar(pos, kw, ShownMandatory(numMandatory, |pos|), allowExcess)
  }

  /** Joining two non-empty groups puts exactly one space between them. */
  lemma {:induction false} JoinConcat(a: seq<string>, b: seq<string>)
    requires a != [] && b != []
    ensures Join(a + b) == Join(a) + " " + Join(b)
    decreases |b|
  {
    var ab := a + b;
    if |b| == 1 {
      assert ab[..|ab| - 1] == a;
    } else {
      var b' := b[..|b| - 1];
      assert ab[..|ab| - 1] == a + b';
      JoinConcat(a, b');
    }
  }

  /**
    In the corrected usage string a positional item is bare exactly when
    `_check_mandatory_args` requires that field.
   */
  lemma CorrectedMarksRequired(pos: seq<PSubarg>, numMandatory: int, i: nat)
    requires i < |pos|
    ensures PosItems(pos, ShownMandatory(numMandatory, |pos|))[i] == PosItem(pos[i], PosRequired(numMandatory, i))
  {
  }

  /** The default mandatory count -1 makes the as-written usage string bracket a required field. */
  lemma AsWrittenBracketsRequired()
    ensures MetavarAsWritten([PSubarg("in_file", None)], [], -1, true) == "[in_file] [...]"
    ensures MetavarCorrected([PSubarg("in_file", None)], [], -1, true) == "in_file [...]"
    ensures PosRequired(-1, 0)
    ensures FirstMissing([PSubarg("in_file", None)], [], -1, map[]) == Some(MissingPositional(0))
  {
    var pos := [PSubarg("in_file", None)];
    assert PosItem(pos[0], false) == "[" + "in_file" + "]" == "[in_file]";
    assert PosItems(pos, -1) == ["[in_file]"];
    assert [] + ["[in_file]"] == ["[in_file]"];
    assert PosItems(pos, 1) == ["in_file"];
    assert KwItems([]) == [];
    assert PosItems(pos, -1) + KwItems([]) == ["[in_file]"];
    assert PosItems(pos, 1) + KwItems([]) == ["in_file"];
  }
}
