/**
 * The mapping metadata the query layer consults, as given lookups: a node description with its
 * graph properties, the reserved names, relaxed property paths, and Java's `split("\\.")`.
 */
module Mapping {
  import opened Wrappers
  import opened Cypher

  type TypeName = string

  /** Reserved names of SDN's `Constants` (that class is not part of this model). */
  const NameOfInternalId: string := "__internalNeo4jId__"
  const NameOfAllProperties: string := "__allProperties__"
  const NameOfAdditionalSort: string := "__stable_uniq_sort__"

  /** A `GraphPropertyDescription` / `Neo4jPersistentProperty` and the facts the core asks of it. */
  datatype GraphProperty = GraphProperty(
    propertyName: string,
    isIdProperty: bool,
    isInternalIdProperty: bool,
    isComposite: bool,
    isPersistentProperty: bool,
    hasPropertyAnnotation: bool)

  /**
   * `PropertyFilter.RelaxedPropertyPath`: a dotted path whose first segment is `segment`,
   * together with the type of its leaf.
   */
  datatype RelaxedPropertyPath = RelaxedPropertyPath(segment: string, tail: seq<string>, typ: TypeName) {
    /** `toDotPath()` */
    function ToDotPath(): string { JoinDotted([segment] + tail) }
    /** `toDotPath(first)`: the same path with its first segment replaced. */
    function ToDotPathWith(first: string): string { JoinDotted([first] + tail) }
  }

  /**
   * A `NodeDescription` / `Neo4jPersistentEntity`: the name of its typed root node, its graph
   * properties by domain name (standing for both `getGraphProperty` and
   * `getRequiredPersistentProperty`), whether it may contain cycles, its id expression, and the
   * fields the return-clause generator would project, each with the expression it emits.
   */
  datatype NodeDescription = NodeDescription(
    rootName: string,
    properties: map<string, GraphProperty>,
    containsPossibleCircles: bool,
    idExpression: Expression,
    fields: seq<(RelaxedPropertyPath, Expression)>)

  function JoinDotted(parts: seq<string>): string
  {
    if |parts| == 0 then "" else if |parts| == 1 then parts[0] else parts[0] + "." + JoinDotted(parts[1..])
  }

  /** The pieces between dots, empty pieces included ("a..b" gives "a", "", "b"). */
  function Pieces(s: string): (ps: seq<string>)
    ensures |ps| >= 1
  {
    if |s| == 0 then [""]
    else if s[0] == '.' then [""] + Pieces(s[1..])
    else var rest := Pieces(s[1..]); [[s[0]] + rest[0]] + rest[1..]
  }

  function DropTrailingEmpty(ps: seq<string>): seq<string>
  {
    if |ps| > 0 && ps[|ps| - 1] == "" then DropTrailingEmpty(ps[..|ps| - 1]) else ps
  }

  /** Java's `s.split("\\.")`: no dot gives `[s]`, otherwise trailing empty pieces are dropped. */
  function Split(s: string): seq<string>
  {
    if '.' !in s then [s] else DropTrailingEmpty(Pieces(s))
  }

  /** `s.split("\\.")[0]`, `None` where Java throws `ArrayIndexOutOfBoundsException`. */
  function FirstSegment(s: string): Option<string>
  {
    var parts := Split(s);
    if |parts| == 0 then None else Some(parts[0])
  }

  /** The characters before the first dot, or all of `s` when it has none. */
  function PrefixBeforeDot(s: string): (p: string)
    ensures |p| <= |s| && p == s[..|p|] && '.' !in p
    ensures |p| < |s| ==> s[|p|] == '.'
  {
    if |s| == 0 || s[0] == '.' then "" else [s[0]] + PrefixBeforeDot(s[1..])
  }

  /** A path that has a dot and nothing else: the one input on which `split("\\.")[0]` throws. */
  predicate OnlyDots(s: string) {
    '.' in s && forall i :: 0 <= i < |s| ==> s[i] == '.'
  }

  lemma {:induction false} PiecesHead(s: string)
    ensures Pieces(s)[0] == PrefixBeforeDot(s)
  {
    if |s| > 0 && s[0] != '.' { PiecesHead(s[1..]); }
  }

  lemma {:induction false} PiecesNonEmptyWhenNotAllDots(s: string, i: nat)
    requires i < |s| && s[i] != '.'
    ensures exists j :: 0 <= j < |Pieces(s)| && Pieces(s)[j] != ""
  {
    if s[0] == '.' {
      PiecesNonEmptyWhenNotAllDots(s[1..], i - 1);
      var j :| 0 <= j < |Pieces(s[1..])| && Pieces(s[1..])[j] != "";
      assert Pieces(s)[j + 1] == Pieces(s[1..])[j];
    } else {
      assert Pieces(s)[0] != "";
    }
  }

  lemma {:induction false} PiecesEmptyWhenAllDots(s: string)
    requires forall i :: 0 <= i < |s| ==> s[i] == '.'
    ensures forall j :: 0 <= j < |Pieces(s)| ==> Pieces(s)[j] == ""
  {
    if |s| > 0 { PiecesEmptyWhenAllDots(s[1..]); }
  }

  lemma {:induction false} DropKeepsHead(ps: seq<string>, j: nat)
    requires j < |ps| && ps[j] != ""
    ensures |DropTrailingEmpty(ps)| > 0 && DropTrailingEmpty(ps)[0] == ps[0]
  {
    if ps[|ps| - 1] == "" {
      DropKeepsHead(ps[..|ps| - 1], j);
    }
  }

  lemma {:induction false} DropAllEmpty(ps: seq<string>)
    requires forall j :: 0 <= j < |ps| ==> ps[j] == ""
    ensures DropTrailingEmpty(ps) == []
  {
    if |ps| > 0 { DropAllEmpty(ps[..|ps| - 1]); }
  }

  /**
   * `split("\\.")[0]` is the part before the first dot; it is missing exactly when the path has a
   * dot and nothing else.
   */
  lemma FirstSegmentIsPrefix(s: string)
    ensures FirstSegment(s) == if OnlyDots(s) then None else Some(PrefixBeforeDot(s))
  {
    if '.' !in s {
      assert PrefixBeforeDot(s) == s;
    } else if OnlyDots(s) {
      PiecesEmptyWhenAllDots(s);
      DropAllEmpty(Pieces(s));
    } else {
      var i :| 0 <= i < |s| && s[i] != '.';
      PiecesNonEmptyWhenNotAllDots(s, i);
      var j :| 0 <= j < |Pieces(s)| && Pieces(s)[j] != "";
      DropKeepsHead(Pieces(s), j);
      PiecesHead(s);
    }
  }
}
