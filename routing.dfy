/**
 * Sorting of retrieved documents into job, skill and ethics records. A
 * document is a JSON-like value. Three shapes are understood, tried in this
 * order:
 *   1. a dictionary with a "metadata" dictionary, routed by the exact type tag
 *      of that metadata, which is the record kept;
 *   2. a dictionary with a "meta" dictionary, routed the same way;
 *   3. any other dictionary, routed by the words "job", "skill" or "ethics"
 *      (in this priority) in its lower-cased type, the document itself kept.
 * Anything else, and any document whose handling fails, is skipped.
 */
module Routing {
  import opened Wrappers
  import opened Strings

  /** A JSON-like value: a string, a dictionary, or anything else (numbers, lists, null). */
  datatype Value = Str(s: string) | Dict(fields: map<string, Value>) | Other

  datatype Category = Jobs | Skills | Ethics

  /** A document's destination list and the record appended to it. */
  datatype Routed = Routed(category: Category, record: Value)

  /** The exact type tag of metadata routed to each list. */
  function Tag(c: Category): string {
    match c
    case Jobs => "job_description"
    case Skills => "skill_learning_path"
    case Ethics => "ethics_guideline"
  }

  /** The word a plain document's type must contain for each list. */
  function Keyword(c: Category): string {
    match c
    case Jobs => "job"
    case Skills => "skill"
    case Ethics => "ethics"
  }

  /** `d.get("type", "")`. */
  function TypeOf(fields: map<string, Value>): Value {
    if "type" in fields then fields["type"] else Str("")
  }

  /** Shapes 1 and 2: the list whose tag is exactly the metadata's type. */
  function ByTag(meta: map<string, Value>): Option<Category> {
    var t := TypeOf(meta);
    if t == Str(Tag(Jobs)) then Some(Jobs)
    else if t == Str(Tag(Skills)) then Some(Skills)
    else if t == Str(Tag(Ethics)) then Some(Ethics)
    else None
  }

  /** Shape 3: the first list whose word occurs in the lower-cased type. */
  function ByKeyword(t: string): Option<Category> {
    var lower := Lower(t);
    if Contains(lower, Keyword(Jobs)) then Some(Jobs)
    else if Contains(lower, Keyword(Skills)) then Some(Skills)
    else if Contains(lower, Keyword(Ethics)) then Some(Ethics)
    else None
  }

  /** Route metadata found under "metadata" or "meta"; a non-dictionary there makes the lookup fail. */
  function RouteMetadata(meta: Value): Option<Routed> {
    match meta
    case Dict(m) =>
      (match ByTag(m)
       case Some(c) => Some(Routed(c, meta))
       case None => None)
    case _ => None
  }

  function Classify(doc: Value): Option<Routed> {
    match doc
    case Dict(f) =>
      if "metadata" in f then RouteMetadata(f["metadata"])
      else if "meta" in f then RouteMetadata(f["meta"])
      else
        (match TypeOf(f)
         case Str(t) =>
           (match ByKeyword(t)
            case Some(c) => Some(Routed(c, doc))
            case None => None)
         case _ => None)
    case _ => None
  }

  /** The records the documents contribute to list `c`, in document order. */
  function Picked(docs: seq<Value>, c: Category): seq<Value>
    decreases |docs|
  {
    if docs == [] then []
    else
      var before := Picked(docs[..|docs| - 1], c);
      match Classify(docs[|docs| - 1])
      case Some(r) => if r.category == c then before + [r.record] else before
      case None => before
  }

  /** Append every routed record to its list, starting from the lists already given. */
  method RouteDocuments(docs: seq<Value>, jobs0: seq<Value>, skills0: seq<Value>, ethics0: seq<Value>)
    returns (jobs: seq<Value>, skills: seq<Value>, ethics: seq<Value>)
    ensures jobs == jobs0 + Picked(docs, Jobs)
    ensures skills == skills0 + Picked(docs, Skills)
    ensures ethics == ethics0 + Picked(docs, Ethics)
  {
    jobs, skills, ethics := jobs0, skills0, ethics0;
    for i := 0 to |docs|
      invariant jobs == jobs0 + Picked(docs[..i], Jobs)
      invariant skills == skills0 + Picked(docs[..i], Skills)
      invariant ethics == ethics0 + Picked(docs[..i], Ethics)
    {
      assert docs[..i + 1][..i] == docs[..i];
      match Classify(docs[i])
      case Some(r) => {
        match r.category
        case Jobs => jobs := jobs + [r.record];
        case Skills => skills := skills + [r.record];
        case Ethics => ethics := ethics + [r.record];
      }
      case None =>
    }
    assert docs[..|docs|] == docs;
  }

  /** Every document lands in at most one list. */
  lemma {:induction false} PickedAtMostOnce(docs: seq<Value>)
    ensures |Picked(docs, Jobs)| + |Picked(docs, Skills)| + |Picked(docs, Ethics)| <= |docs|
    decreases |docs|
  {
    if docs != [] {
      PickedAtMostOnce(docs[..|docs| - 1]);
    }
  }

  /** Routing the combined results of several searches is routing each in turn. */
  lemma {:induction false} PickedAppend(a: seq<Value>, b: seq<Value>, c: Category)
    ensures Picked(a + b, c) == Picked(a, c) + Picked(b, c)
    decreases |b|
  {
    if b != [] {
      var init := b[..|b| - 1];
      PickedAppend(a, init, c);
      assert (a + b)[..|a + b| - 1] == a + init;
      assert (a + b)[|a + b| - 1] == b[|b| - 1];
    } else {
      assert a + b == a;
    }
  }

  /** A record is in list `c` exactly when some document routes it there. */
  lemma {:induction false} PickedMembers(docs: seq<Value>, c: Category, r: Value)
    ensures r in Picked(docs, c) <==> exists i :: 0 <= i < |docs| && Classify(docs[i]) == Some(Routed(c, r))
    decreases |docs|
  {
    if docs != [] {
      var init := docs[..|docs| - 1];
      PickedMembers(init, c, r);
      if exists i :: 0 <= i < |docs| && Classify(docs[i]) == Some(Routed(c, r)) {
        var i :| 0 <= i < |docs| && Classify(docs[i]) == Some(Routed(c, r));
        if i < |init| {
          assert init[i] == docs[i];
        }
      }
      if exists i :: 0 <= i < |init| && Classify(init[i]) == Some(Routed(c, r)) {
        var i :| 0 <= i < |init| && Classify(init[i]) == Some(Routed(c, r));
        assert docs[i] == init[i];
      }
    }
  }

  /** Only dictionaries are routed, and the record kept is always a dictionary. */
  lemma RoutedRecordsAreDictionaries(doc: Value)
    ensures !doc.Dict? ==> Classify(doc).None?
    ensures Classify(doc).Some? ==> Classify(doc).value.record.Dict?
  {
  }

  /**
   * Under "metadata": the metadata is routed to list `c` exactly when it is a
   * dictionary whose type is `c`'s tag; any "meta" beside it is ignored.
   */
  lemma MetadataRouting(fields: map<string, Value>, c: Category)
    requires "metadata" in fields
    ensures Classify(Dict(fields)) == Some(Routed(c, fields["metadata"]))
      <==> fields["metadata"].Dict? && TypeOf(fields["metadata"].fields) == Str(Tag(c))
    ensures Classify(Dict(fields)) == Classify(Dict(fields - {"meta"}))
  {
    assert "metadata" in fields - {"meta"};
    assert (fields - {"meta"})["metadata"] == fields["metadata"];
  }

  /** Under "meta" alone: the same exact-tag rule. */
  lemma MetaRouting(fields: map<string, Value>, c: Category)
    requires "metadata" !in fields && "meta" in fields
    ensures Classify(Dict(fields)) == Some(Routed(c, fields["meta"]))
      <==> fields["meta"].Dict? && TypeOf(fields["meta"].fields) == Str(Tag(c))
  {
  }

  /** The categories in the order shape 3 tries them. */
  function Priority(c: Category): nat {
    match c
    case Jobs => 0
    case Skills => 1
    case Ethics => 2
  }

  /**
   * A plain dictionary goes to list `c` exactly when its type is a string
   * whose lower-cased form contains `c`'s word and no word tried before it.
   */
  lemma PlainRouting(fields: map<string, Value>, c: Category)
    requires "metadata" !in fields && "meta" !in fields
    ensures Classify(Dict(fields)) == Some(Routed(c, Dict(fields)))
      <==> TypeOf(fields).Str?
           && Contains(Lower(TypeOf(fields).s), Keyword(c))
           && forall d: Category | Priority(d) < Priority(c) :: !Contains(Lower(TypeOf(fields).s), Keyword(d))
  {
  }

  /** A plain dictionary without a type, or with an empty one, is skipped. */
  lemma UntypedPlainSkipped(fields: map<string, Value>)
    requires "metadata" !in fields && "meta" !in fields
    requires "type" !in fields || fields["type"] == Str("")
    ensures Classify(Dict(fields)).None?
  {
    forall c: Category ensures !Contains(Lower(""), Keyword(c)) {
      assert Lower("") == "";
      MissingCharacter("", Keyword(c), Keyword(c)[0]);
    }
  }
}
