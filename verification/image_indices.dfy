/**
 The grouping key of images (`ImageIndices` in config/__init__.py).

 A key holds nine fixed header fields. The same record type doubles as the
 comparison mask: built from a configuration's `image_collect` list it holds 0
 for every listed field and 1 for every other one, and two keys are compared
 only on the fields whose mask value is non-zero (Python truthiness). So the
 fields a configuration lists are exactly the ones that do NOT split groups.
 The mask is an explicit parameter here rather than a class-wide attribute.
 */
module ImageIndices {
  import opened Wrappers
  import opened Text
  import opened Mrd

  datatype Field =
    | MeasurementUid | Average | Slice | Contrast | Phase
    | Repetition | Set | ImageType | ImageSeriesIndex

  /** The fixed field order of `_fields_`. */
  const Fields: seq<Field> :=
    [MeasurementUid, Average, Slice, Contrast, Phase, Repetition, Set, ImageType, ImageSeriesIndex]

  const FieldNames: seq<string> :=
    ["measurement_uid", "average", "slice", "contrast", "phase",
     "repetition", "set", "image_type", "image_series_index"]

  const UnknownFieldsMessage: string := "Config specifies unknown image indexing attributes: "

  /** Position of a field in `Fields`. */
  function Rank(f: Field): (i: nat)
    ensures i < |Fields| && Fields[i] == f
  {
    match f
    case MeasurementUid => 0
    case Average => 1
    case Slice => 2
    case Contrast => 3
    case Phase => 4
    case Repetition => 5
    case Set => 6
    case ImageType => 7
    case ImageSeriesIndex => 8
  }

  lemma EveryFieldListed()
    ensures forall f: Field :: f in Fields
  {
    forall f: Field ensures f in Fields {
      assert Fields[Rank(f)] == f;
    }
  }

  function Name(f: Field): string {
    FieldNames[Rank(f)]
  }

  predicate IsFieldName(n: string) {
    n in FieldNames
  }

  lemma NameIsFieldName(f: Field)
    ensures IsFieldName(Name(f))
  {
  }

  /** Every valid name belongs to exactly one field. */
  lemma FieldOfName(n: string) returns (f: Field)
    requires IsFieldName(n)
    ensures Name(f) == n
    ensures forall g :: Name(g) == n ==> g == f
  {
    var i :| 0 <= i < |FieldNames| && FieldNames[i] == n;
    f := Fields[i];
    assert Rank(f) == i;
  }

  /** `r` is `fs` with some elements left out, the rest in their original order. */
  predicate SubsequenceOf(r: seq<Field>, fs: seq<Field>)
    decreases |fs|
  {
    if |r| == 0 then true
    else if |fs| == 0 then false
    else if r[0] == fs[0] then SubsequenceOf(r[1..], fs[1..])
    else SubsequenceOf(r, fs[1..])
  }

  /** Field values are listed in `Fields` order, each at most once. */
  predicate InFieldOrder(fs: seq<Field>) {
    SubsequenceOf(fs, Fields)
  }

  datatype Indices = Indices(
    measurementUid: int,
    average: int,
    slice: int,
    contrast: int,
    phase: int,
    repetition: int,
    setIndex: int,
    imageType: int,
    imageSeriesIndex: int)
  {
    /** `getattr(self, field)`. */
    function Get(f: Field): int {
      match f
      case MeasurementUid => measurementUid
      case Average => average
      case Slice => slice
      case Contrast => contrast
      case Phase => phase
      case Repetition => repetition
      case Set => setIndex
      case ImageType => imageType
      case ImageSeriesIndex => imageSeriesIndex
    }
  }

  /** Two keys are the same record exactly when they agree on every field. */
  lemma IndicesExtensional(a: Indices, b: Indices)
    requires forall f: Field :: a.Get(f) == b.Get(f)
    ensures a == b
  {
    assert a.Get(MeasurementUid) == b.Get(MeasurementUid);
    assert a.Get(Average) == b.Get(Average);
    assert a.Get(Slice) == b.Get(Slice);
    assert a.Get(Contrast) == b.Get(Contrast);
    assert a.Get(Phase) == b.Get(Phase);
    assert a.Get(Repetition) == b.Get(Repetition);
    assert a.Get(Set) == b.Get(Set);
    assert a.Get(ImageType) == b.Get(ImageType);
    assert a.Get(ImageSeriesIndex) == b.Get(ImageSeriesIndex);
  }

  /** `getattr(header, field)` for the header attribute that has the field's name. */
  function HeaderValue(h: ImageHeader, f: Field): int {
    match f
    case MeasurementUid => h.measurementUid
    case Average => h.average
    case Slice => h.slice
    case Contrast => h.contrast
    case Phase => h.phase
    case Repetition => h.repetition
    case Set => h.setIndex
    case ImageType => h.imageType
    case ImageSeriesIndex => h.imageSeriesIndex
  }

  /** The key of an image header (the header branch of the constructor): every field copies the header's attribute of that name. */
  function FromHeader(h: ImageHeader): (r: Indices)
    ensures forall f: Field :: r.Get(f) == HeaderValue(h, f)
  {
    Indices(h.measurementUid, h.average, h.slice, h.contrast, h.phase,
            h.repetition, h.setIndex, h.imageType, h.imageSeriesIndex)
  }

  /** The names of a configuration list that are not index fields, in list order. */
  function InvalidNames(names: seq<string>): (r: seq<string>)
    ensures forall n :: n in r <==> n in names && !IsFieldName(n)
    ensures |r| <= |names|
  {
    if |names| == 0 then []
    else (if IsFieldName(names[0]) then [] else [names[0]]) + InvalidNames(names[1..])
  }

  lemma {:induction false} NoInvalidNames(names: seq<string>)
    requires forall i | 0 <= i < |names| :: IsFieldName(names[i])
    ensures InvalidNames(names) == []
  {
    if |names| > 0 {
      NoInvalidNames(names[1..]);
    }
  }

  function MaskValue(names: seq<string>, f: Field): int {
    if Name(f) in names then 0 else 1
  }

  /**
   The list branch of the constructor: a mask from an `image_collect` list, or
   the ImportError raised when the list names a field that does not exist.
   */
  function FromNames(names: seq<string>): (r: Result<Indices>)
    ensures r.Failure? <==> exists i | 0 <= i < |names| :: !IsFieldName(names[i])
    ensures r.Failure? ==> r.error == UnknownFieldsMessage + Join(InvalidNames(names), ", ")
    ensures r.Success? ==> forall f: Field :: r.value.Get(f) == (if Name(f) in names then 0 else 1)
  {
    var invalid := InvalidNames(names);
    if |invalid| > 0 then
      assert invalid[0] in names;
      Failure(UnknownFieldsMessage + Join(invalid, ", "))
    else
      assert forall i | 0 <= i < |names| :: names[i] !in invalid;
      Success(Indices(
        MaskValue(names, MeasurementUid), MaskValue(names, Average), MaskValue(names, Slice),
        MaskValue(names, Contrast), MaskValue(names, Phase), MaskValue(names, Repetition),
        MaskValue(names, Set), MaskValue(names, ImageType), MaskValue(names, ImageSeriesIndex)))
  }

  /** The fields of `fs` that `keep` accepts, in their order in `fs`. */
  function Filter(fs: seq<Field>, keep: Field -> bool): (r: seq<Field>)
    ensures forall f :: f in r <==> f in fs && keep(f)
    ensures SubsequenceOf(r, fs)
    ensures |r| <= |fs|
  {
    if |fs| == 0 then []
    else
      var rest := Filter(fs[1..], keep);
      if keep(fs[0]) then
        assert ([fs[0]] + rest)[1..] == rest;
        [fs[0]] + rest
      else
        rest
  }

  /** The fields a mask compares, in field order. */
  function Compared(mask: Indices): (r: seq<Field>)
    ensures forall f :: f in r <==> mask.Get(f) != 0
    ensures InFieldOrder(r)
  {
    EveryFieldListed();
    Filter(Fields, f => mask.Get(f) != 0)
  }

  /** Python's `all(...)` over the listed fields. */
  function AllEqual(a: Indices, b: Indices, fs: seq<Field>): (r: bool)
    ensures r <==> forall f | f in fs :: a.Get(f) == b.Get(f)
  {
    |fs| == 0 || (a.Get(fs[0]) == b.Get(fs[0]) && AllEqual(a, b, fs[1..]))
  }

  /** Python's `any(...)` over the listed fields. */
  function AnyDiffers(a: Indices, b: Indices, fs: seq<Field>): (r: bool)
    ensures r <==> exists f | f in fs :: a.Get(f) != b.Get(f)
  {
    |fs| > 0 && (a.Get(fs[0]) != b.Get(fs[0]) || AnyDiffers(a, b, fs[1..]))
  }

  /** `a == b` under a mask. */
  function Eq(mask: Indices, a: Indices, b: Indices): (r: bool)
    ensures r <==> forall f: Field :: mask.Get(f) != 0 ==> a.Get(f) == b.Get(f)
  {
    AllEqual(a, b, Compared(mask))
  }

  /** `a != b` under a mask: the negation of `Eq`, though computed on its own. */
  function Ne(mask: Indices, a: Indices, b: Indices): (r: bool)
    ensures r <==> exists f: Field :: mask.Get(f) != 0 && a.Get(f) != b.Get(f)
    ensures r == !Eq(mask, a, b)
  {
    AnyDiffers(a, b, Compared(mask))
  }

  /** `a - b`: the compared fields on which the keys differ, in field order. */
  function Sub(mask: Indices, a: Indices, b: Indices): (r: seq<Field>)
    ensures forall f :: f in r <==> mask.Get(f) != 0 && a.Get(f) != b.Get(f)
    ensures InFieldOrder(r)
    ensures r == [] <==> Eq(mask, a, b)
  {
    EveryFieldListed();
    var r := Filter(Fields, f => mask.Get(f) != 0 && a.Get(f) != b.Get(f));
    EmptyIffNoMember(r);
    r
  }

  lemma EmptyIffNoMember(r: seq<Field>)
    ensures r == [] <==> forall f: Field :: f !in r
  {
    if r != [] {
      assert r[0] in r;
    }
  }

  /**
   With a mask built from a configuration list, a key comparison looks at
   exactly the fields the list does not name.
   */
  lemma MaskComparesUnlisted(names: seq<string>, a: Indices, b: Indices)
    requires FromNames(names).Success?
    ensures Eq(FromNames(names).value, a, b) <==> forall f: Field :: Name(f) !in names ==> a.Get(f) == b.Get(f)
    ensures forall f: Field :: f in Compared(FromNames(names).value) <==> Name(f) !in names
  {
  }

  /** An empty list compares every field: keys are equal only if identical. */
  lemma EmptyListComparesAll(a: Indices, b: Indices)
    ensures FromNames([]).Success?
    ensures Eq(FromNames([]).value, a, b) <==> a == b
  {
    EmptyListMask();
    var mask := FromNames([]).value;
    if Eq(mask, a, b) {
      IndicesExtensional(a, b);
    }
  }

  lemma EmptyListMask()
    ensures FromNames([]).Success?
    ensures forall f: Field :: FromNames([]).value.Get(f) == 1
  {
    assert InvalidNames([]) == [];
  }

  /** Under any mask, key equality is an equivalence relation. */
  lemma EqIsEquivalence(mask: Indices, a: Indices, b: Indices, c: Indices)
    ensures Eq(mask, a, a)
    ensures Eq(mask, a, b) ==> Eq(mask, b, a)
    ensures Eq(mask, a, b) && Eq(mask, b, c) ==> Eq(mask, a, c)
  {
  }
}
