/** The part of the Mesos protocol that the resource helper builds and reads:
    a resource is a name with one typed value (SCALAR, RANGES or SET).
    The variant of `Value` is the resource's type tag, so a resource always
    carries exactly the payload its type announces. */
module Protos {
  import opened JavaInt

  datatype Option<T> = None | Some(value: T)

  /** An inclusive interval `[begin, end]` of a RANGES value. */
  datatype Range = Range(begin: Int64, end: Int64)

  /** A value of type SCALAR (one `double`, kept opaque as a `real`), RANGES
      (an ordered list of ranges) or SET (a list of items). */
  datatype Value =
    | Scalar(amount: real)
    | Ranges(ranges: seq<Range>)
    | Set(items: seq<string>)

  datatype Resource = Resource(name: string, value: Value)

  /** `p` lies inside one of the inclusive ranges of a RANGES resource. */
  ghost predicate Covers(r: Resource, p: int)
  {
    r.value.Ranges? && exists j :: 0 <= j < |r.value.ranges| && r.value.ranges[j].begin <= p <= r.value.ranges[j].end
  }

  /** The scalar quantity a resource carries, if it is of type SCALAR. */
  function AmountOf(r: Resource): (a: Option<real>)
    ensures a.Some? <==> r.value.Scalar?
  {
    match r.value
    case Scalar(v) => Some(v)
    case _ => None
  }

  /** The amount of the first resource of `rs` named `name`, when that resource is a SCALAR. */
  function ScalarNamed(rs: seq<Resource>, name: string): (a: Option<real>)
    ensures a.Some? ==> exists i :: 0 <= i < |rs| && rs[i].name == name && rs[i].value == Scalar(a.value)
    ensures (forall i :: 0 <= i < |rs| ==> rs[i].name != name) ==> a == None
  {
    if rs == [] then None
    else if rs[0].name == name then AmountOf(rs[0])
    else ScalarNamed(rs[1..], name)
  }
}
