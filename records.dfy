/**
  The sub-argument descriptions `PSubarg` and `KWSubarg`, their name-aware
  comparison `_compare_args`, and the normalisation the `SubargParser`
  constructor applies to each declared entry.
 */
module SubargRecords {
  import opened Wrappers

  /** A positional sub-argument: its name and an optional help text. */
  datatype PSubarg = PSubarg(name: string, help: Option<string>)

  /** A keyword sub-argument: its name, whether it is mandatory, an optional help text. */
  datatype KWSubarg = KWSubarg(name: string, mand: bool, help: Option<string>)

  /** Either kind of description, the first operand of `_compare_args`. */
  datatype Subarg = Pos(p: PSubarg) | Kw(k: KWSubarg)

  function Name(a: Subarg): string
  {
    match a
    case Pos(p) => p.name
    case Kw(k) => k.name
  }

  /**
    The second operand of `_compare_args`, which may be any value: a
    description record, a string, or anything else. Records are values
    here, so the identity test of the source is the case of a record
    compared with itself.
   */
  datatype Operand = Record(rec: Subarg) | Str(s: string) | Other

  /**
    `_compare_args`: records of the same kind compare field by field,
    a record and a string compare by name, everything else is unequal.
   */
  function CompareArgs(arg1: Subarg, arg2: Operand): (r: bool)
    ensures arg2.Record? ==> (r <==> arg1 == arg2.rec)
    ensures arg2.Str? ==> (r <==> Name(arg1) == arg2.s)
    ensures arg2.Other? ==> !r
  {
    match arg2
    case Record(other) =>
      (match (arg1, other)
       case (Pos(p1), Pos(p2)) => p1.name == p2.name && p1.help == p2.help
       case (Kw(k1), Kw(k2)) => k1.name == k2.name && k1.mand == k2.mand && k1.help == k2.help
       case _ => false)
    case Str(s) => Name(arg1) == s
    case Other => false
  }

  /**
    `name in kw_args`: list membership, which asks `_compare_args` of
    each declared keyword record in turn; it is therefore a test on names.
   */
  function Declared(kw: seq<KWSubarg>, name: string): (r: bool)
    ensures r <==> exists j :: 0 <= j < |kw| && kw[j].name == name
  {
    exists j | 0 <= j < |kw| :: CompareArgs(Kw(kw[j]), Str(name))
  }

  /** A declared positional entry: a bare name or a full record. */
  datatype PosEntry = PosName(name: string) | PosRecord(rec: PSubarg)

  /** A declared keyword entry: a bare name or a full record. */
  datatype KwEntry = KwName(name: string) | KwRecord(rec: KWSubarg)

  function ToPSubarg(e: PosEntry): PSubarg
  {
    match e
    case PosName(s) => PSubarg(s, None)
    case PosRecord(p) => p
  }

  function ToKWSubarg(e: KwEntry): KWSubarg
  {
    match e
    case KwName(s) => KWSubarg(s, true, None)
    case KwRecord(k) => k
  }

  /**
    The constructor's copy of `pos_args`: one record per entry, in
    declaration order; a bare name becomes a record without help text.
   */
  function NormalizePos(es: seq<PosEntry>): (r: seq<PSubarg>)
    ensures |r| == |es|
    ensures forall i :: 0 <= i < |es| && es[i].PosName? ==> r[i] == PSubarg(es[i].name, None)
    ensures forall i :: 0 <= i < |es| && es[i].PosRecord? ==> r[i] == es[i].rec
  {
    seq(|es|, i requires 0 <= i < |es| => ToPSubarg(es[i]))
  }

  /**
    The constructor's copy of `kw_args`: one record per entry, in
    declaration order; a bare name becomes a MANDATORY record without
    help text (the `mand` default of `KWSubarg`).
   */
  function NormalizeKw(es: seq<KwEntry>): (r: seq<KWSubarg>)
    ensures |r| == |es|
    ensures forall i :: 0 <= i < |es| && es[i].KwName? ==> r[i] == KWSubarg(es[i].name, true, None)
    ensures forall i :: 0 <= i < |es| && es[i].KwRecord? ==> r[i] == es[i].rec
  {
    seq(|es|, i requires 0 <= i < |es| => ToKWSubarg(es[i]))
  }
}
