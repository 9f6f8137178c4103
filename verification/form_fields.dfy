/**
 * The label triples of a submitted annotation form. The form carries them
 * positionally, in fields named `aspect_<i>`, `polarity_<i>` and
 * `emotion_<i>`, where `<i>` is the decimal rendering of the label's index.
 */
module FormFields {
  import opened Wrappers
  import opened Records

  const AspectField: string := "aspect"
  const PolarityField: string := "polarity"
  const EmotionField: string := "emotion"

  predicate IsLabelField(prefix: string) {
    prefix == AspectField || prefix == PolarityField || prefix == EmotionField
  }

  function DigitChar(d: nat): char
    requires d < 10
  {
    ('0' as int + d) as char
  }

  predicate IsDigit(c: char) {
    '0' <= c <= '9'
  }

  function DigitValue(c: char): nat {
    if IsDigit(c) then c as int - '0' as int else 0
  }

  /** Python's `f"{n}"` for a non-negative integer. */
  function Decimal(n: nat): (s: string)
    ensures |s| > 0
    ensures forall k :: 0 <= k < |s| ==> IsDigit(s[k])
    ensures |s| > 1 ==> s[0] != '0'
    decreases n
  {
    if n < 10 then [DigitChar(n)] else Decimal(n / 10) + [DigitChar(n % 10)]
  }

  /** The value of a string of decimal digits, most significant first. */
  function ParseDecimal(s: string): nat
    decreases |s|
  {
    if |s| == 0 then 0 else ParseDecimal(s[..|s| - 1]) * 10 + DigitValue(s[|s| - 1])
  }

  lemma {:induction false} DecimalRoundTrip(n: nat)
    ensures ParseDecimal(Decimal(n)) == n
    decreases n
  {
    var s := Decimal(n);
    if n < 10 {
      assert s[..0] == [];
    } else {
      assert s[..|s| - 1] == Decimal(n / 10);
      DecimalRoundTrip(n / 10);
    }
  }

  /** The form field name `f"{prefix}_{i}"`. */
  function FieldName(prefix: string, i: nat): string {
    prefix + "_" + Decimal(i)
  }

  /** The position of the last '_' in `s`, or -1 when there is none. */
  function LastUnderscore(s: string): int
    decreases |s|
  {
    if |s| == 0 then -1
    else if s[|s| - 1] == '_' then |s| - 1
    else LastUnderscore(s[..|s| - 1])
  }

  lemma {:induction false} LastUnderscoreBeforeDigits(p: string, d: string)
    requires forall k :: 0 <= k < |d| ==> IsDigit(d[k])
    ensures LastUnderscore(p + "_" + d) == |p|
    decreases |d|
  {
    var s := p + "_" + d;
    if |d| > 0 {
      assert s[|s| - 1] == d[|d| - 1];
      assert s[..|s| - 1] == p + "_" + d[..|d| - 1];
      LastUnderscoreBeforeDigits(p, d[..|d| - 1]);
    }
  }

  /** Distinct (prefix, index) pairs name distinct fields, so no two label parts share a field. */
  lemma FieldNameInjective(p1: string, i: nat, p2: string, j: nat)
    requires FieldName(p1, i) == FieldName(p2, j)
    ensures p1 == p2 && i == j
  {
    var n := FieldName(p1, i);
    LastUnderscoreBeforeDigits(p1, Decimal(i));
    LastUnderscoreBeforeDigits(p2, Decimal(j));
    assert |p1| == |p2|;
    assert p1 == n[..|p1|] == p2;
    assert Decimal(i) == n[|p1| + 1..] == Decimal(j);
    DecimalRoundTrip(i);
    DecimalRoundTrip(j);
  }

  /** `request.form.get(key)`. */
  function Lookup(fields: map<string, string>, key: string): Option<string> {
    if key in fields then Some(fields[key]) else None
  }

  /** The label built from the fields of index `i`, each part possibly absent. */
  function LabelAt(fields: map<string, string>, i: nat): Label {
    Label(Lookup(fields, FieldName(AspectField, i)),
          Lookup(fields, FieldName(PolarityField, i)),
          Lookup(fields, FieldName(EmotionField, i)))
  }

  /**
   * The loop `for i in range(total_items)` that collects the submitted labels:
   * a negative count collects none, and nothing is required of any field.
   */
  function BuildLabels(fields: map<string, string>, total: int): (labels: seq<Label>)
    ensures |labels| == if total < 0 then 0 else total
    ensures forall i :: 0 <= i < |labels| ==> labels[i] == LabelAt(fields, i)
    decreases total
  {
    if total <= 0 then [] else BuildLabels(fields, total - 1) + [LabelAt(fields, total - 1)]
  }

  /** The part of a label that the field `prefix` carries. */
  function Part(l: Label, prefix: string): Option<string> {
    if prefix == AspectField then l.aspect
    else if prefix == PolarityField then l.polarity
    else l.emotion
  }

  function Put(m: map<string, string>, key: string, v: Option<string>): map<string, string> {
    if v.Some? then m[key := v.value] else m
  }

  /** The fields a form submits for label `l` at index `i`: one per present part. */
  function Entries(i: nat, l: Label): map<string, string> {
    Put(Put(Put(map[], FieldName(AspectField, i), l.aspect),
            FieldName(PolarityField, i), l.polarity),
        FieldName(EmotionField, i), l.emotion)
  }

  /** The form fields that carry a list of labels, by position. */
  function EncodeFields(labels: seq<Label>): map<string, string>
    decreases |labels|
  {
    if |labels| == 0 then map[]
    else EncodeFields(labels[..|labels| - 1]) + Entries(|labels| - 1, labels[|labels| - 1])
  }

  lemma EntriesLookup(i: nat, l: Label, prefix: string, j: nat)
    requires IsLabelField(prefix)
    ensures Lookup(Entries(i, l), FieldName(prefix, j)) == if i == j then Part(l, prefix) else None
  {
    var key := FieldName(prefix, j);
    if key == FieldName(AspectField, i) { FieldNameInjective(prefix, j, AspectField, i); }
    if key == FieldName(PolarityField, i) { FieldNameInjective(prefix, j, PolarityField, i); }
    if key == FieldName(EmotionField, i) { FieldNameInjective(prefix, j, EmotionField, i); }
  }

  /** Reading a field back from an encoded form yields the part it was written from. */
  lemma {:induction false} EncodeLookup(labels: seq<Label>, prefix: string, j: nat)
    requires IsLabelField(prefix)
    ensures Lookup(EncodeFields(labels), FieldName(prefix, j))
         == if j < |labels| then Part(labels[j], prefix) else None
    decreases |labels|
  {
    if |labels| > 0 {
      var n := |labels| - 1;
      EncodeLookup(labels[..n], prefix, j);
      EntriesLookup(n, labels[n], prefix, j);
    }
  }

  /**
   * Positional field naming loses nothing: the labels collected from the
   * fields that encode `labels` are `labels` again.
   */
  lemma LabelsRoundTrip(labels: seq<Label>)
    ensures BuildLabels(EncodeFields(labels), |labels|) == labels
  {
    var r := BuildLabels(EncodeFields(labels), |labels|);
    forall i | 0 <= i < |labels|
      ensures r[i] == labels[i]
    {
      EncodeLookup(labels, AspectField, i);
      EncodeLookup(labels, PolarityField, i);
      EncodeLookup(labels, EmotionField, i);
    }
  }
}
