/**
 * Query-path resolution (utils/models/query.py).
 *
 * A chain of field references -- literal names, model fields, their
 * deferred-attribute descriptors and relation descriptors -- is turned into
 * one lookup string whose segments are joined with the lookup separator
 * "__".  The framework classes the source tells apart with `isinstance`
 * become one constructor each of `FieldRef`; the names Django stores on a
 * field (`name`, and `attname` for a relation) are data, as in Django.
 */
module Query {

  /** Django's LOOKUP_SEP. */
  const LookupSep: string := "__"

  /** A RelatedField (ForeignKey, OneToOneField, ManyToManyField): its
      logical `name` and its storage column `attname` (for example
      `person` and `person_id`). */
  datatype RelatedField = RelatedField(name: string, attname: string)

  /** The kinds of reference the resolver distinguishes. */
  datatype FieldRef =
      /** a `str`: an already written path segment */
    | Literal(text: string)
      /** a `Field` instance that is not a `RelatedField`; `isRelation` is its
          `is_relation` flag (true for, e.g., a generic foreign key) */
    | ModelField(name: string, isRelation: bool)
      /** a `RelatedField` instance (its `is_relation` is always true) */
    | Related(field: RelatedField)
      /** a plain `DeferredAttribute`, wrapping the field named `name` */
    | Deferred(name: string)
      /** a `ForeignKeyDeferredAttribute`: the raw-id descriptor of a foreign
          key, which is also a `DeferredAttribute` */
    | ForeignKeyDeferred(field: RelatedField)
      /** a `ForwardManyToOneDescriptor` */
    | ForwardManyToOne(field: RelatedField)
      /** a `ForwardOneToOneDescriptor` */
    | ForwardOneToOne(field: RelatedField)
      /** a `ManyToManyDescriptor`, read from either side of the relation */
    | ManyToMany(field: RelatedField, reverse: bool)
      /** any other object, e.g. a reverse descriptor or a `ForeignObjectRel` */
    | Unrelated(typeName: string)

  /** A resolved value, or the `TypeError` raised for an unsupported
      reference (the message names that reference's type). */
  datatype Result<+T> = Ok(value: T) | Unsupported(offending: FieldRef)

  /** `Q(**{path: value})`: a single equality lookup. */
  datatype Lookup<+V> = Lookup(path: string, value: V)

  /** The `RelatedFieldLike` type alias: a RelatedField or a relation descriptor. */
  predicate IsRelatedFieldLike(r: FieldRef)
  {
    r.Related? || r.ForeignKeyDeferred? || r.ForwardManyToOne? || r.ForwardOneToOne? || r.ManyToMany?
  }

  /** The `NormalFieldLike` type alias: any `Field` or any `DeferredAttribute`. */
  predicate IsNormalFieldLike(r: FieldRef)
  {
    r.ModelField? || r.Related? || r.Deferred? || r.ForeignKeyDeferred?
  }

  /** `_is_relation`: a Field answers with its `is_relation` flag, every
      relation descriptor is a relation, anything else is not. */
  predicate IsRelation(r: FieldRef): (b: bool)
    ensures b <==> IsRelatedFieldLike(r) || (r.ModelField? && r.isRelation)
  {
    match r
    case ModelField(_, isRelation) => isRelation
    case Related(_) => true
    case ForeignKeyDeferred(_) => true
    case ForwardManyToOne(_) => true
    case ForwardOneToOne(_) => true
    case ManyToMany(_, _) => true
    case _ => false
  }

  /** `_is_foreign_index`. */
  predicate IsForeignIndex(r: FieldRef): (b: bool)
    ensures b ==> IsRelation(r) && IsNormalFieldLike(r)
  {
    r.ForeignKeyDeferred?
  }

  /** `_is_forward_relation`: a many-to-many descriptor, a forward
      descriptor or a RelatedField instance. */
  predicate IsForwardRelation(r: FieldRef): (b: bool)
    ensures b ==> IsRelation(r)
    ensures IsRelatedFieldLike(r) ==> (b <==> !IsForeignIndex(r))
  {
    if r.ManyToMany? then true
    else r.ForwardManyToOne? || r.ForwardOneToOne? || r.Related?
  }

  /** `_get_related_field`: the RelatedField behind a related reference; any
      other reference reaches the failing `assert`.  That AssertionError is
      reported with `Unsupported`, the same constructor as the TypeError of
      `_to_field_name`: the model merges the two exceptions. */
  function GetRelatedField(r: FieldRef): (res: Result<RelatedField>)
    ensures res.Ok? <==> IsRelatedFieldLike(r)
    ensures res.Ok? ==> res.value == r.field
    ensures res.Unsupported? ==> res.offending == r
  {
    match r
    case Related(rf) => Ok(rf)
    case ForeignKeyDeferred(rf) => Ok(rf)
    case ForwardManyToOne(rf) => Ok(rf)
    case ForwardOneToOne(rf) => Ok(rf)
    case ManyToMany(rf, _) => Ok(rf)
    case _ => Unsupported(r)
  }

  /** `_normal_name`: a DeferredAttribute is replaced by the field it wraps,
      whose `name` is the query name. */
  function NormalName(r: FieldRef): (res: string)
    requires IsNormalFieldLike(r)
    ensures IsRelatedFieldLike(r) ==> res == ForwardName(r)
  {
    match r
    case Deferred(name) => name
    case ForeignKeyDeferred(rf) => rf.name
    case ModelField(name, _) => name
    case Related(rf) => rf.name
  }

  /** `_foreign_index_name`: the related field's storage column `attname`. */
  function ForeignIndexName(r: FieldRef): (res: string)
    requires IsRelatedFieldLike(r)
    ensures res == r.field.attname
  {
    GetRelatedField(r).value.attname
  }

  /** `_forward_name`: the related field's logical `name`. */
  function ForwardName(r: FieldRef): (res: string)
    requires IsRelatedFieldLike(r)
    ensures res == r.field.name
  {
    GetRelatedField(r).value.name
  }

  /** `_to_field_name`: the checks in the source's order -- string first,
      then relations (raw id before forward), then plain fields; everything
      else is a `TypeError`.  The postconditions give the outcome kind by
      kind. */
  function ToFieldName(r: FieldRef): (res: Result<string>)
    ensures r.Literal? ==> res == Ok(r.text)
    ensures r.ForeignKeyDeferred? ==> res == Ok(r.field.attname)
    ensures r.Related? || r.ForwardManyToOne? || r.ForwardOneToOne? || r.ManyToMany? ==>
              res == Ok(r.field.name)
    ensures r.Deferred? || (r.ModelField? && !r.isRelation) ==> res == Ok(r.name)
    ensures res.Unsupported? <==> r.Unrelated? || (r.ModelField? && r.isRelation)
    ensures res.Unsupported? ==> res.offending == r
  {
    if r.Literal? then Ok(r.text)
    else if IsRelation(r) then
      if IsForeignIndex(r) then Ok(ForeignIndexName(r))
      else if IsForwardRelation(r) then Ok(ForwardName(r))
      else Unsupported(r)
    else if IsNormalFieldLike(r) then Ok(NormalName(r))
    else Unsupported(r)
  }

  /** The raw-id descriptor is also a DeferredAttribute, so the plain-field
      rule would give the relation's `name`; because the relation check runs
      first it resolves to the storage column `attname` instead. */
  lemma ForeignIndexResolvesToAttname(rf: RelatedField)
    ensures IsNormalFieldLike(ForeignKeyDeferred(rf))
    ensures NormalName(ForeignKeyDeferred(rf)) == rf.name
    ensures ToFieldName(ForeignKeyDeferred(rf)) == Ok(rf.attname)
  {
  }

  /** A many-to-many descriptor resolves to the field's `name` whichever side
      of the relation it was read from. */
  lemma ManyToManyIgnoresSide(rf: RelatedField, reverse: bool)
    ensures ToFieldName(ManyToMany(rf, reverse)) == ToFieldName(ManyToMany(rf, !reverse))
    ensures ToFieldName(ManyToMany(rf, reverse)) == Ok(rf.name)
  {
  }

  /** The segments of a chain, resolved in input order; the first
      unsupported reference aborts (the generator inside `join`). */
  function Segments(refs: seq<FieldRef>): (res: Result<seq<string>>)
    ensures res.Ok? <==> forall i :: 0 <= i < |refs| ==> ToFieldName(refs[i]).Ok?
    ensures res.Ok? ==> |res.value| == |refs|
    ensures res.Ok? ==> forall i :: 0 <= i < |refs| ==> res.value[i] == ToFieldName(refs[i]).value
  {
    if |refs| == 0 then Ok([])
    else
      match ToFieldName(refs[0])
      case Unsupported(bad) => Unsupported(bad)
      case Ok(head) =>
        match Segments(refs[1..])
        case Unsupported(bad) => Unsupported(bad)
        case Ok(tail) => Ok([head] + tail)
  }

  /** The error a chain reports is that of its first unsupported reference:
      every reference before it resolves. */
  lemma {:induction false} SegmentsReportFirstFailure(refs: seq<FieldRef>)
    requires Segments(refs).Unsupported?
    ensures exists k :: 0 <= k < |refs| && refs[k] == Segments(refs).offending &&
                        ToFieldName(refs[k]).Unsupported? &&
                        forall j :: 0 <= j < k ==> ToFieldName(refs[j]).Ok?
  {
    if ToFieldName(refs[0]).Unsupported? {
      assert refs[0] == Segments(refs).offending;
    } else {
      SegmentsReportFirstFailure(refs[1..]);
      var k :| 0 <= k < |refs[1..]| && refs[1..][k] == Segments(refs[1..]).offending &&
               ToFieldName(refs[1..][k]).Unsupported? &&
               forall j :: 0 <= j < k ==> ToFieldName(refs[1..][j]).Ok?;
      assert refs[k + 1] == refs[1..][k];
      assert forall j :: 1 <= j < k + 1 ==> refs[j] == refs[1..][j - 1];
    }
  }

  /** The total length of the segments. */
  function TotalLength(segs: seq<string>): nat
  {
    if |segs| == 0 then 0 else |segs[0]| + TotalLength(segs[1..])
  }

  /** `sep.join(segs)`: the segments in order with one separator between
      each two neighbours, so its length is theirs plus `|segs| - 1`
      separators. */
  function Join(segs: seq<string>, sep: string): (r: string)
    ensures |segs| > 0 ==> |r| == TotalLength(segs) + (|segs| - 1) * |sep|
    ensures |segs| == 0 ==> r == ""
    ensures |segs| > 0 ==> r[..|segs[0]|] == segs[0]
  {
    if |segs| == 0 then ""
    else if |segs| == 1 then segs[0]
    else segs[0] + sep + Join(segs[1..], sep)
  }

  /** Joining is associative: the join of two non-empty halves is the two
      joins with one separator between them. */
  lemma {:induction false} JoinAppend(a: seq<string>, b: seq<string>, sep: string)
    requires |a| > 0 && |b| > 0
    ensures Join(a + b, sep) == Join(a, sep) + sep + Join(b, sep)
  {
    if |a| == 1 {
      assert (a + b)[1..] == b;
    } else {
      assert (a + b)[1..] == a[1..] + b;
      JoinAppend(a[1..], b, sep);
    }
  }

  /** `f(*fields)`: the segments joined with LOOKUP_SEP. */
  function F(refs: seq<FieldRef>): (res: Result<string>)
    ensures |refs| == 0 ==> res == Ok("")
    ensures res.Ok? <==> Segments(refs).Ok?
    ensures res.Unsupported? ==> res.offending == Segments(refs).offending
  {
    match Segments(refs)
    case Ok(segs) => Ok(Join(segs, LookupSep))
    case Unsupported(bad) => Unsupported(bad)
  }

  /** A chain of one reference is that reference's segment. */
  lemma FSingle(r: FieldRef)
    ensures F([r]) == ToFieldName(r)
  {
  }

  /** Resolving a chain of two parts: an unsupported reference in the first
      part is reported before anything in the second; when both resolve,
      the path is the two paths with one separator between them. */
  lemma {:induction false} FAppend(a: seq<FieldRef>, b: seq<FieldRef>)
    ensures F(a).Unsupported? ==> F(a + b) == F(a)
    ensures F(a).Ok? && F(b).Unsupported? ==> F(a + b) == F(b)
    ensures F(a).Ok? && F(b).Ok? && |a| > 0 && |b| > 0 ==>
              F(a + b) == Ok(F(a).value + LookupSep + F(b).value)
  {
    SegmentsAppend(a, b);
    if Segments(a).Ok? && Segments(b).Ok? && |a| > 0 && |b| > 0 {
      JoinAppend(Segments(a).value, Segments(b).value, LookupSep);
    }
  }

  /** Segments distribute over concatenation, and the left part's failure
      comes first. */
  lemma {:induction false} SegmentsAppend(a: seq<FieldRef>, b: seq<FieldRef>)
    ensures Segments(a).Unsupported? ==> Segments(a + b) == Segments(a)
    ensures Segments(a).Ok? && Segments(b).Unsupported? ==> Segments(a + b) == Segments(b)
    ensures Segments(a).Ok? && Segments(b).Ok? ==>
              Segments(a + b) == Ok(Segments(a).value + Segments(b).value)
  {
    if Segments(a).Ok? && Segments(b).Ok? {
      var sa, sb := Segments(a).value, Segments(b).value;
      forall i | 0 <= i < |a + b|
        ensures ToFieldName((a + b)[i]) == Ok((sa + sb)[i])
      {
        if i < |a| {
          assert (a + b)[i] == a[i];
        } else {
          assert (a + b)[i] == b[i - |a|];
        }
      }
      var s := Segments(a + b).value;
      assert s == sa + sb;
    } else {
      SegmentsAppendFailure(a, b);
    }
  }

  /** The failing half of `SegmentsAppend`, by induction on the left part. */
  lemma {:induction false} SegmentsAppendFailure(a: seq<FieldRef>, b: seq<FieldRef>)
    ensures Segments(a).Unsupported? ==> Segments(a + b) == Segments(a)
    ensures Segments(a).Ok? && Segments(b).Unsupported? ==> Segments(a + b) == Segments(b)
  {
    if |a| == 0 {
      assert a + b == b;
    } else {
      assert (a + b)[0] == a[0];
      assert (a + b)[1..] == a[1..] + b;
      SegmentsAppendFailure(a[1..], b);
    }
  }

  /** `q(*fields, value=v)`: the single lookup `{f(*fields): v}`. */
  function Q<V>(refs: seq<FieldRef>, value: V): (res: Result<Lookup<V>>)
    ensures res.Ok? <==> F(refs).Ok?
    ensures res.Ok? ==> res.value.path == F(refs).value && res.value.value == value
    ensures res.Unsupported? ==> res.offending == F(refs).offending
  {
    match F(refs)
    case Ok(path) => Ok(Lookup(path, value))
    case Unsupported(bad) => Unsupported(bad)
  }

  /** `lq(v, *fields)`: the value comes first. */
  function LQ<V>(value: V, refs: seq<FieldRef>): (res: Result<Lookup<V>>)
    ensures res.Ok? <==> F(refs).Ok?
    ensures res.Ok? ==> res.value == Lookup(F(refs).value, value)
    ensures res.Unsupported? ==> res.offending == F(refs).offending
  {
    Q(refs, value)
  }

  /** `lq` and `q` build the same lookup for every input. */
  lemma LqAgreesWithQ<V>(value: V, refs: seq<FieldRef>)
    ensures LQ(value, refs) == Q(refs, value)
  {
  }

  /** A Position-like scenario: the forward relation `person` followed by the
      plain field `pos` gives "person__pos", and the raw id gives "person_id". */
  lemma PositionPaths()
    ensures F([ForwardManyToOne(RelatedField("person", "person_id")), Deferred("pos")]) == Ok("person__pos")
    ensures Q([ForwardManyToOne(RelatedField("person", "person_id")), Deferred("pos")], 3)
            == Ok(Lookup("person__pos", 3))
    ensures F([ForeignKeyDeferred(RelatedField("person", "person_id"))]) == Ok("person_id")
    ensures F([Literal("custom_literal")]) == Ok("custom_literal")
  {
    var person := ForwardManyToOne(RelatedField("person", "person_id"));
    FSingle(person);
    FSingle(Deferred("pos"));
    FAppend([person], [Deferred("pos")]);
    assert [person] + [Deferred("pos")] == [person, Deferred("pos")];
    assert F([person]) == Ok("person") && F([Deferred("pos")]) == Ok("pos");
    assert "person" + LookupSep + "pos" == "person__pos";
    FSingle(ForeignKeyDeferred(RelatedField("person", "person_id")));
    FSingle(Literal("custom_literal"));
  }

  /** The search field of the person admin: the one-to-one `person_id`
      towards the user, then the user's `username`. */
  lemma PersonUsernamePath()
    ensures F([ForwardOneToOne(RelatedField("person_id", "person_id_id")), Deferred("username")])
            == Ok("person_id__username")
  {
    var person := ForwardOneToOne(RelatedField("person_id", "person_id_id"));
    FSingle(person);
    FSingle(Deferred("username"));
    FAppend([person], [Deferred("username")]);
    assert [person] + [Deferred("username")] == [person, Deferred("username")];
    assert F([person]) == Ok("person_id") && F([Deferred("username")]) == Ok("username");
    assert "person_id" + LookupSep + "username" == "person_id__username";
  }
}
