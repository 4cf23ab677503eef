/** `ReturnTuple`: which fields of a node description a projection keeps. */
module ReturnTuples {
  import opened Wrappers
  import opened Mapping

  /** `PropertyFilter.ProjectedPath`, reduced to the dotted path it names and the type it expects. */
  datatype ProjectedPath = ProjectedPath(dotPath: string, typ: TypeName)

  /**
   * The three final fields of a return tuple; `filteredProperties` is the `PropertyFilter`,
   * given as the set of (dotted path, type) pairs it contains.
   */
  datatype ReturnTuple = ReturnTuple(nodeDescription: NodeDescription, filteredProperties: set<(string, TypeName)>, isDistinct: bool) {

    function GetNodeDescription(): NodeDescription { nodeDescription }

    function IsDistinct(): bool { isDistinct }

    /** The stored name of `path`'s first segment when it is a persistent property annotated with `@Property`. */
    function AnnotatedName(path: RelaxedPropertyPath): Option<string> {
      if path.segment in nodeDescription.properties
         && nodeDescription.properties[path.segment].isPersistentProperty
         && nodeDescription.properties[path.segment].hasPropertyAnnotation
      then Some(nodeDescription.properties[path.segment].propertyName)
      else None
    }

    /** `include(fieldName)`: the dotted path, renamed at its first segment, and its type are in the filter. */
    function Include(path: RelaxedPropertyPath): (b: bool)
      ensures AnnotatedName(path).Some? ==>
        (b <==> (path.ToDotPathWith(AnnotatedName(path).value), path.typ) in filteredProperties)
      ensures AnnotatedName(path).None? ==>
        (b <==> (path.ToDotPath(), path.typ) in filteredProperties)
    {
      var dotPath := match AnnotatedName(path)
        case Some(name) => path.ToDotPathWith(name)
        case None => path.ToDotPath();
      (dotPath, path.typ) in filteredProperties
    }
  }

  /** `PropertyFilter.from`, reduced to collecting the projected (path, type) pairs. */
  function PropertyFilterFrom(included: seq<ProjectedPath>): set<(string, TypeName)> {
    set p | p in included :: (p.dotPath, p.typ)
  }

  /** The `ReturnTuple` constructor. */
  function NewReturnTuple(nodeDescription: NodeDescription, included: seq<ProjectedPath>, isDistinct: bool): (t: ReturnTuple)
    ensures t.GetNodeDescription() == nodeDescription && t.IsDistinct() == isDistinct
    ensures forall p :: p in included ==> (p.dotPath, p.typ) in t.filteredProperties
    ensures forall q :: q in t.filteredProperties ==> exists p :: p in included && q == (p.dotPath, p.typ)
  {
    ReturnTuple(nodeDescription, PropertyFilterFrom(included), isDistinct)
  }

  /**
   * Renaming touches only the first segment: a path whose first segment is not an annotated
   * property is looked up as written, and two paths differing only in an annotated first segment
   * that maps to the same stored name are included alike.
   */
  lemma {:induction false} IncludeDependsOnStoredName(t: ReturnTuple, p: RelaxedPropertyPath, q: RelaxedPropertyPath)
    requires p.tail == q.tail && p.typ == q.typ
    requires t.AnnotatedName(p).Some? && t.AnnotatedName(q).Some?
    requires t.AnnotatedName(p).value == t.AnnotatedName(q).value
    ensures t.Include(p) == t.Include(q)
  {
  }

  /** A field stored under its own name is included exactly when its path as written is in the filter. */
  lemma {:induction false} IncludeUnrenamed(t: ReturnTuple, p: RelaxedPropertyPath)
    requires t.AnnotatedName(p) == Some(p.segment) || t.AnnotatedName(p).None?
    ensures t.Include(p) <==> (p.ToDotPath(), p.typ) in t.filteredProperties
  {
  }

  /** A projection restricted to `name` on a node with fields `name` and `age` keeps `name` only. */
  lemma IncludeExample()
    ensures
      var nd := NodeDescription("n", map["name" := GraphProperty("name", false, false, false, true, false),
                                         "age" := GraphProperty("age", false, false, false, true, false)],
                                false, Cypher.Opaque("id(n)"), []);
      var t := NewReturnTuple(nd, [ProjectedPath("name", "String")], false);
      t.Include(RelaxedPropertyPath("name", [], "String")) && !t.Include(RelaxedPropertyPath("age", [], "Integer"))
  {
    var nd := NodeDescription("n", map["name" := GraphProperty("name", false, false, false, true, false),
                                       "age" := GraphProperty("age", false, false, false, true, false)],
                              false, Cypher.Opaque("id(n)"), []);
    var t := NewReturnTuple(nd, [ProjectedPath("name", "String")], false);
    assert t.filteredProperties == {("name", "String")};
    assert RelaxedPropertyPath("age", [], "Integer").ToDotPath() == "age";
  }
}
