/**
  `_check_mandatory_args` and `_arg_message`: which declared fields are
  required, the first required field missing from a namespace, and the
  message that reports it.
 */
module SubargMandatory {
  import opened Wrappers
  import opened SubargRecords
  import opened SubargTokens

  /** Positional `i` is required when the mandatory count is negative (all) or exceeds `i`. */
  predicate PosRequired(numMandatory: int, i: int)
  {
    numMandatory < 0 || i < numMandatory
  }

  /** Every required positional field from `from` on is bound in `ns`. */
  predicate PositionalsBoundFrom(pos: seq<PSubarg>, numMandatory: int, ns: Namespace, from: nat)
  {
    forall i :: from <= i < |pos| && PosRequired(numMandatory, i) ==> pos[i].name in ns
  }

  /** Every mandatory keyword field from `from` on is bound in `ns`. */
  predicate KeywordsBoundFrom(kw: seq<KWSubarg>, ns: Namespace, from: nat)
  {
    forall j :: from <= j < |kw| && kw[j].mand ==> kw[j].name in ns
  }

  /** Every required field, positional and keyword, is bound in `ns`. */
  predicate AllRequiredBound(pos: seq<PSubarg>, kw: seq<KWSubarg>, numMandatory: int, ns: Namespace)
  {
    PositionalsBoundFrom(pos, numMandatory, ns, 0) && KeywordsBoundFrom(kw, ns, 0)
  }

  /** The first required positional field at or after `from` that `ns` lacks. */
  function FirstMissingPos(pos: seq<PSubarg>, numMandatory: int, ns: Namespace, from: nat): (r: Option<nat>)
    ensures r.None? <==> PositionalsBoundFrom(pos, numMandatory, ns, from)
    ensures r.Some? ==>
      from <= r.value < |pos| && PosRequired(numMandatory, r.value) && pos[r.value].name !in ns &&
      forall i :: from <= i < r.value && PosRequired(numMandatory, i) ==> pos[i].name in ns
    decreases |pos| - from
  {
    if from >= |pos| then None
    else if PosRequired(numMandatory, from) && pos[from].name !in ns then Some(from)
    else FirstMissingPos(pos, numMandatory, ns, from + 1)
  }

  /** The first mandatory keyword field at or after `from` that `ns` lacks. */
  function FirstMissingKw(kw: seq<KWSubarg>, ns: Namespace, from: nat): (r: Option<nat>)
    ensures r.None? <==> KeywordsBoundFrom(kw, ns, from)
    ensures r.Some? ==>
      from <= r.value < |kw| && kw[r.value].mand && kw[r.value].name !in ns &&
      forall j :: from <= j < r.value && kw[j].mand ==> kw[j].name in ns
    decreases |kw| - from
  {
    if from >= |kw| then None
    else if kw[from].mand && kw[from].name !in ns then Some(from)
    else FirstMissingKw(kw, ns, from + 1)
  }

  /** A required field that is missing, by its index in its own list. */
  datatype MissingField = MissingPositional(index: nat) | MissingKeyword(index: nat)

  predicate FieldInRange(pos: seq<PSubarg>, kw: seq<KWSubarg>, f: MissingField)
  {
    match f
    case MissingPositional(i) => i < |pos|
    case MissingKeyword(j) => j < |kw|
  }

  /**
    The field `_check_mandatory_args` stops at: positional fields first,
    then keyword fields, each in declaration order; none when every
    required field is bound.
   */
  function FirstMissing(pos: seq<PSubarg>, kw: seq<KWSubarg>, numMandatory: int, ns: Namespace): (r: Option<MissingField>)
    ensures r.None? <==> AllRequiredBound(pos, kw, numMandatory, ns)
    ensures r.Some? ==> FieldInRange(pos, kw, r.value)
    ensures r.Some? && r.value.MissingPositional? ==>
      var i := r.value.index;
      PosRequired(numMandatory, i) && pos[i].name !in ns &&
      forall i' :: 0 <= i' < i && PosRequired(numMandatory, i') ==> pos[i'].name in ns
    ensures r.Some? && r.value.MissingKeyword? ==>
      var j := r.value.index;
      PositionalsBoundFrom(pos, numMandatory, ns, 0) && kw[j].mand && kw[j].name !in ns &&
      forall j' :: 0 <= j' < j && kw[j'].mand ==> kw[j'].name in ns
  {
    match FirstMissingPos(pos, numMandatory, ns, 0)
    case Some(i) => Some(MissingPositional(i))
    case None =>
      match FirstMissingKw(kw, ns, 0)
      case Some(j) => Some(MissingKeyword(j))
      case None => None
  }

  /**
    `_arg_message`: the message, prefixed with `[arg_name] ` when the
    argument name is set and not empty, and otherwise unchanged.
   */
  function ArgMessage(argName: Option<string>, message: string): (r: string)
    ensures |r| >= |message| && r[|r| - |message|..] == message
    ensures |r| > |message| <==> argName.Some? && argName.value != ""
    ensures |r| > |message| ==> r[..|r| - |message|] == "[" + argName.value + "] "
  {
    if argName.Some? && argName.value != "" then "[" + argName.value + "] " + message
    else message
  }

  const MissingPositionalText: string := "Missing mandatory positional subarg "
  const MissingKeywordText: string := "Missing mandatory keyword subarg "

  /** The declared name of a missing field. */
  function FieldName(pos: seq<PSubarg>, kw: seq<KWSubarg>, f: MissingField): string
    requires FieldInRange(pos, kw, f)
  {
    match f
    case MissingPositional(i) => pos[i].name
    case MissingKeyword(j) => kw[j].name
  }

  /** The kind of a missing field, as the message words it. */
  function KindText(f: MissingField): string
  {
    if f.MissingPositional? then MissingPositionalText else MissingKeywordText
  }

  /**
    The message of the `ArgumentError` for a missing field, as intended:
    the tagged kind text followed by the name of the missing field itself.
   */
  function MissingMessage(pos: seq<PSubarg>, kw: seq<KWSubarg>, argName: Option<string>, f: MissingField): (r: string)
    requires FieldInRange(pos, kw, f)
    ensures |r| >= |FieldName(pos, kw, f)|
    ensures r[|r| - |FieldName(pos, kw, f)|..] == FieldName(pos, kw, f)
    ensures r[..|r| - |FieldName(pos, kw, f)|] == ArgMessage(argName, KindText(f))
  {
    var lead := ArgMessage(argName, KindText(f));
    var r := lead + FieldName(pos, kw, f);
    assert r[..|lead|] == lead;
    r
  }

  /** The exception a Python expression can raise while building the message. */
  datatype PyError = IndexError

  /**
    The message as the source builds it: for a missing KEYWORD field `j`
    it appends `pos_args[j].name`, the name of the j-th POSITIONAL field,
    which raises IndexError when there are at most `j` positional fields.
   */
  function MissingMessageAsWritten(pos: seq<PSubarg>, kw: seq<KWSubarg>, argName: Option<string>, f: MissingField): (r: Result<string, PyError>)
    requires FieldInRange(pos, kw, f)
    ensures f.MissingPositional? ==> r == Success(MissingMessage(pos, kw, argName, f))
    ensures f.MissingKeyword? ==> (r.Failure? <==> f.index >= |pos|)
  {
    match f
    case MissingPositional(i) => Success(ArgMessage(argName, MissingPositionalText) + pos[i].name)
    case MissingKeyword(j) =>
      if j < |pos| then Success(ArgMessage(argName, MissingKeywordText) + pos[j].name)
      else Failure(IndexError)
  }

  /** A failed mandatory check: the field and the message of the raised error. */
  datatype MissingSubarg = MissingSubarg(field: MissingField, message: string)

  /** `_check_mandatory_args` on a namespace: nothing, or the error it raises. */
  function MandatoryCheck(pos: seq<PSubarg>, kw: seq<KWSubarg>, numMandatory: int, argName: Option<string>, ns: Namespace): (r: Option<MissingSubarg>)
    ensures r.None? <==> AllRequiredBound(pos, kw, numMandatory, ns)
    ensures r.Some? ==>
      && FirstMissing(pos, kw, numMandatory, ns) == Some(r.value.field)
      && r.value.message == MissingMessage(pos, kw, argName, r.value.field)
  {
    match FirstMissing(pos, kw, numMandatory, ns)
    case None => None
    case Some(f) => Some(MissingSubarg(f, MissingMessage(pos, kw, argName, f)))
  }

  /**
    `_check_mandatory_args` exactly as written: the same field as
    `MandatoryCheck`, but with the message of `MissingMessageAsWritten`, so
    it raises IndexError exactly when the first missing field is a keyword
    field without a positional field at its index.
   */
  function MandatoryCheckAsWritten(pos: seq<PSubarg>, kw: seq<KWSubarg>, numMandatory: int, argName: Option<string>,
                                   ns: Namespace): (r: Result<Option<MissingSubarg>, PyError>)
    ensures var fm := FirstMissing(pos, kw, numMandatory, ns);
      && (r.Failure? <==> fm.Some? && fm.value.MissingKeyword? && fm.value.index >= |pos|)
      && (r.Failure? ==> r.error == IndexError)
      && (r == Success(None) <==> AllRequiredBound(pos, kw, numMandatory, ns))
      && (r.Success? && r.value.Some? ==>
            fm == Some(r.value.value.field) &&
            MissingMessageAsWritten(pos, kw, argName, r.value.value.field) == Success(r.value.value.message))
      && (fm.None? || fm.value.MissingPositional? ==> r == Success(MandatoryCheck(pos, kw, numMandatory, argName, ns)))
  {
    match FirstMissing(pos, kw, numMandatory, ns)
    case None => Success(None)
    case Some(f) =>
      match MissingMessageAsWritten(pos, kw, argName, f)
      case Success(m) => Success(Some(MissingSubarg(f, m)))
      case Failure(e) => Failure(e)
  }

  /**
    The as-written message for a missing keyword field names a positional
    field instead, or fails with IndexError when there is none at that index.
   */
  lemma MissingKeywordMessageAsWritten(pos: seq<PSubarg>, kw: seq<KWSubarg>, argName: Option<string>, j: nat)
    requires j < |kw| && j < |pos|
    ensures MissingMessageAsWritten(pos, kw, argName, MissingKeyword(j)).Success?
    ensures MissingMessageAsWritten(pos, kw, argName, MissingKeyword(j)).value ==
      ArgMessage(argName, MissingKeywordText) + pos[j].name
    ensures pos[j].name != kw[j].name ==>
      MissingMessageAsWritten(pos, kw, argName, MissingKeyword(j)).value != MissingMessage(pos, kw, argName, MissingKeyword(j))
  {
    var lead := ArgMessage(argName, MissingKeywordText);
    if pos[j].name != kw[j].name {
      var wrong, right := lead + pos[j].name, lead + kw[j].name;
      assert MissingMessage(pos, kw, argName, MissingKeyword(j)) == right;
      assert wrong[|lead|..] == pos[j].name;
      assert right[|lead|..] == kw[j].name;
    }
  }
}
