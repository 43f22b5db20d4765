/** The HTMT template tree, its text, and the normal form every text has exactly once. */
module Templates {
  import opened Basics
  import opened MarkerSearch
  import opened Markers
  import Conditions
  import Decimal

  /** When and how often a section's body is rendered. */
  datatype Match =
    | Always
    | Each(name: string)                  // once for every sub-object under this name
    | OnCode(code: int)                   // when the response has this HTTP code
    | When(condition: Conditions.Chain)   // when the condition holds

  /** A piece of a template. A whole template is a list of pieces that always applies. */
  datatype Value =
    | Html(text: string)
    | Access(name: string)
    | Query(name: string)
    | Section(match_: Match, body: seq<Value>)

  function KindOf(m: Match): Kind {
    match m
    case Always => Iteration
    case Each(_) => Iteration
    case OnCode(_) => Code
    case When(_) => Condition
  }

  /** What stands between a section's opening marker and the '>'. */
  function Contents(m: Match): string {
    match m
    case Always => ""
    case Each(n) => n
    case OnCode(c) => Decimal.ToTextSigned(c)
    case When(c) => if Conditions.WellShaped(c) then Conditions.Print(c) else ""
  }

  /** The text of a value or query tag. */
  function TagText(m: Marker, name: string): string {
    m.Text() + ":" + name + ">"
  }

  function PrintValue(v: Value): string {
    match v
    case Html(t) => t
    case Access(n) => TagText(ValueTag, n)
    case Query(n) => TagText(QueryTag, n)
    case Section(m, body) =>
      OpenText(KindOf(m)) + Contents(m) + ">" + Print(body) + CloseText(KindOf(m))
  }

  function Print(vs: seq<Value>): string {
    if vs == [] then "" else PrintValue(vs[0]) + Print(vs[1..])
  }

  predicate PlainName(n: string) {
    '<' !in n && '>' !in n
  }

  predicate NormalMatch(m: Match) {
    match m
    case Always => true
    case Each(n) => n != "" && PlainName(n)
    case OnCode(c) => Decimal.MIN_LONG <= c <= Decimal.MAX_LONG
    case When(c) => Conditions.Canonical(c) && PlainName(Conditions.Print(c))
  }

  predicate NormalValue(v: Value) {
    match v
    case Html(t) => t != "" && MarkerFree(t)
    case Access(n) => PlainName(n)
    case Query(n) => PlainName(n)
    case Section(m, body) => NormalMatch(m) && Normal(body)
  }

  /** No empty and no adjacent HTML pieces, HTML free of markers, plain names. */
  predicate Normal(vs: seq<Value>) {
    vs == [] ||
    (&& NormalValue(vs[0])
     && (vs[0].Html? && |vs| > 1 ==> !vs[1].Html?)
     && Normal(vs[1..]))
  }
}
