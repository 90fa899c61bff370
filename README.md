# Mesos resource helper of the Elasticsearch scheduler, in Dafny

The scheduler's `Resources` helper does two things:

* It builds Mesos resources. These are `ports` (a RANGES resource with one inclusive range), `cpus`, `mem` and `disk` (SCALAR resources). It also builds the ordered triple cpus, mem, disk that the framework declares for itself from its configuration.
* It picks concrete ports from an offer. An offer is a list of resources. The two-port selector returns at most two ports and the one-port selector at most one.

The model has four modules:

* `JavaInt` (`JavaInt.dfy`): Java `int` and `long`. `Wrap32` keeps the low 32 bits in two's complement. It models both the narrowing cast `(int) range.getBegin()` and the `int` addition `(int) range.getBegin() + 1`. That addition wraps to the smallest `int` when `(int) begin` is the largest `int`: for a `long` begin of 2^31 − 1, and also for one such as 2^32 + 2^31 − 1, which narrows to the same `int`.
* `Protos` (`Protos.dfy`): the protocol values as plain datatypes. A `Resource` is a name plus a `Value`. The variant of `Value` (`Scalar`, `Ranges`, `Set`) is the resource's type tag, so a resource always carries the payload its type announces. The scalar `double` is a `real` that is only stored and passed through.
* `PortSelection` (`PortSelection.dfy`): the selector as functions. `AdmitRange` is one visit of one range. `AdmitRanges`, `AdmitResource` and `Selection` iterate it over the ranges and over the offer, exactly as the Java loops do. The lemmas connect it to an independent reference, `Candidates`: the full in-order stream of ports the offer could give. They are stated for any limit.
* `Resources` (`Resources.dfy`): the helper class itself.
  * The builders are functions.
  * `Configuration` is a record of its three getters.
  * `SelectPorts` is the shared selection loop, written as a method with two nested loops that append to a sequence. It is proved equal to `Selection`.
  * `SelectTwoPortsFromRange` and `SelectOnePortsFromRange` run it with limits 2 and 1.

Notes on the model:

* The selector tests the resource type only, never the name, and this model does the same. So a RANGES resource with any name supplies ports.
* The builders do not check that `begin <= end`, and neither does `PortRange`. `SinglePortRange`, `PortRange` and the three scalar builders accept every input.
* Selection may return fewer ports than requested, including none.
* Nothing is removed as a duplicate.
* The scan goes on over every remaining range after the limit is reached. Those ranges add nothing.
* The offer is a sequence value, so the selectors cannot modify it.

## Model

| member | source | states |
|---|---|---|
| `JavaInt.Wrap32` | scheduler/src/main/java/org/apache/mesos/elasticsearch/scheduler/Resources.java:60-62 | the result is congruent to the input modulo 2^32 and equals it whenever the input fits in an `int` |
| `JavaInt.Narrow` | scheduler/src/main/java/org/apache/mesos/elasticsearch/scheduler/Resources.java:60 | `(int)` of a `long` keeps it modulo 2^32, and is the identity on values that fit in an `int` |
| `JavaInt.Successor` | scheduler/src/main/java/org/apache/mesos/elasticsearch/scheduler/Resources.java:62 | `int` `+ 1` is `x + 1` below the largest `int` and wraps to the smallest `int` at it |
| `Resources.PortRange` | scheduler/src/main/java/org/apache/mesos/elasticsearch/scheduler/Resources.java:19-26 | a RANGES resource named "ports" whose range list is exactly `[(begin, end)]`; it covers a port exactly when `begin <= p <= end` |
| `Resources.SinglePortRange` | scheduler/src/main/java/org/apache/mesos/elasticsearch/scheduler/Resources.java:28-30 | equals `PortRange(p, p)` and covers exactly the port `p` |
| `Resources.Cpus` | scheduler/src/main/java/org/apache/mesos/elasticsearch/scheduler/Resources.java:32-38 | a SCALAR resource named "cpus" whose amount is exactly the argument; it covers no port |
| `Resources.Mem` | scheduler/src/main/java/org/apache/mesos/elasticsearch/scheduler/Resources.java:40-46 | a SCALAR resource named "mem" whose amount is exactly the argument; it covers no port |
| `Resources.Disk` | scheduler/src/main/java/org/apache/mesos/elasticsearch/scheduler/Resources.java:48-54 | a SCALAR resource named "disk" whose amount is exactly the argument; it covers no port |
| `Resources.BuildFrameworkResources` | scheduler/src/main/java/org/apache/mesos/elasticsearch/scheduler/Resources.java:80-85 | three resources, named cpus, mem, disk in that order, carrying the configured cpus, mem and disk |
| `Resources.FrameworkResourcesRoundTrip` | scheduler/src/main/java/org/apache/mesos/elasticsearch/scheduler/Resources.java:80-85 | looking up the scalars named cpus, mem and disk in the declared resources gives back exactly the configuration |
| `Resources.SelectPorts` | scheduler/src/main/java/org/apache/mesos/elasticsearch/scheduler/Resources.java:56-78 | the nested loops over RANGES resources and their ranges compute exactly `Selection(offer, limit)` |
| `Resources.SelectTwoPortsFromRange` | scheduler/src/main/java/org/apache/mesos/elasticsearch/scheduler/Resources.java:56-66 | the result is the first two ports of the candidate stream. Its length is min(2, weight), where a range weighs 1 if begin = end and 2 otherwise. Every port is an offered begin, or begin + 1 of a range with begin ≠ end |
| `Resources.SelectOnePortsFromRange` | scheduler/src/main/java/org/apache/mesos/elasticsearch/scheduler/Resources.java:68-78 | the result is `[(int) begin]` of the first range of the first RANGES resource that has one, or `[]` |
| `PortSelection.SelectionIsFirstCandidates` | scheduler/src/main/java/org/apache/mesos/elasticsearch/scheduler/Resources.java:58-64 | first fit: the selection is exactly the first `limit` ports of the in-order candidate stream |
| `PortSelection.CandidatesAreOffered` | scheduler/src/main/java/org/apache/mesos/elasticsearch/scheduler/Resources.java:60-62 | a port is in the candidate stream if and only if some range of some RANGES resource yields it (its begin, or begin + 1 when begin ≠ end) |
| `PortSelection.SelectionLength` | scheduler/src/main/java/org/apache/mesos/elasticsearch/scheduler/Resources.java:58-64 | the selection has exactly min(limit, Σ over ranges of (1 if begin = end else 2)) ports; none is dropped as a duplicate |
| `PortSelection.SelectedPortsComeFromRanges` | scheduler/src/main/java/org/apache/mesos/elasticsearch/scheduler/Resources.java:60-62 | every selected port is the begin of a range of a RANGES resource, or begin + 1 of such a range with begin ≠ end |
| `PortSelection.SelectedPortsAreCovered` | scheduler/src/main/java/org/apache/mesos/elasticsearch/scheduler/Resources.java:60-62 | when all ranges are well-formed TCP port ranges, every selected port lies inside an offered inclusive range (no wrap-around, begin + 1 never passes end) |
| `PortSelection.SelectionGrowsWithLimit` | scheduler/src/main/java/org/apache/mesos/elasticsearch/scheduler/Resources.java:56-78 | the selection for a smaller limit is a prefix of the selection for a larger one, so one-port is a prefix of two-port |
| `PortSelection.FullSelectionIgnoresLaterResources` | scheduler/src/main/java/org/apache/mesos/elasticsearch/scheduler/Resources.java:59 | once `limit` ports are held, appending any resources to the offer leaves the result unchanged |
| `PortSelection.NonRangesResourceIgnored` | scheduler/src/main/java/org/apache/mesos/elasticsearch/scheduler/Resources.java:58 | removing a SCALAR or SET resource from anywhere in the offer leaves the result unchanged |
| `PortSelection.NoRangesNoPorts` | scheduler/src/main/java/org/apache/mesos/elasticsearch/scheduler/Resources.java:58 | an offer without a RANGES resource yields the empty selection |
| `PortSelection.NamesAreIgnored` | scheduler/src/main/java/org/apache/mesos/elasticsearch/scheduler/Resources.java:58 | two offers whose resources have the same values give the same selection, whatever their names |
| `PortSelection.LimitOneNeverTakesSuccessor` | scheduler/src/main/java/org/apache/mesos/elasticsearch/scheduler/Resources.java:72-75 | with limit 1 a visited range adds its begin to an empty list and nothing otherwise: the `begin + 1` branch is dead |
| `PortSelection.SelectOneIsFirstBegin` | scheduler/src/main/java/org/apache/mesos/elasticsearch/scheduler/Resources.java:68-78 | the one-port selection is `[(int) begin]` of the first range of the first RANGES resource with a range, or `[]` |
| `PortSelection.OnePortRange` | scheduler/src/main/java/org/apache/mesos/elasticsearch/scheduler/Resources.java:58-64 | an offer `[(a, a)]` gives `[a]` |
| `PortSelection.WideRange` | scheduler/src/main/java/org/apache/mesos/elasticsearch/scheduler/Resources.java:58-64 | an offer `[(a, b)]` with a ≠ b gives `[a, a + 1]` |
| `PortSelection.AcrossResources` | scheduler/src/main/java/org/apache/mesos/elasticsearch/scheduler/Resources.java:58-64 | `[(a, a)]` followed by a resource with `[(c, d)]` gives `[a, c]` |
| `PortSelection.SuccessorWrapsAtLargestInt` | scheduler/src/main/java/org/apache/mesos/elasticsearch/scheduler/Resources.java:60-62 | a range whose `(int) begin` is the largest `int`, with begin ≠ end, yields `[MAX_INT, MIN_INT]`: the `int` `+ 1` wraps as in Java |
| `PortSelection.NarrowedBeginCanWrap` | scheduler/src/main/java/org/apache/mesos/elasticsearch/scheduler/Resources.java:60-62 | the `long` begin 2^32 + 2^31 − 1 narrows to the largest `int`, and the range `(2^32 + 2^31 − 1, 2^32 + 2^31)` yields `[MAX_INT, MIN_INT]` |
| `PortSelection.DuplicatesKept` | scheduler/src/main/java/org/apache/mesos/elasticsearch/scheduler/Resources.java:58-64 | two resources each offering `[(a, a)]` give `[a, a]` |

## Left out

- The Mesos protobuf builders (`Protos.Resource.newBuilder()` and the rest) are a foreign library. Plain datatypes replace them. A protobuf resource could carry a type tag and a payload that disagree; a `Value` variant cannot, so that case is not modelled.
- The range bounds of the Mesos protocol are unsigned 64-bit on the wire. They are modelled as Java `long`, which is what `getBegin()` and `getEnd()` return.
- Floating-point semantics of the `double` scalars: the helper only stores them and passes them on, so they are an opaque `real`.
- The `Configuration` class is not part of this model. Only its three getters are modelled, as the fields of a record.
- Java stream mechanics: the lazy `filter` followed by `forEach` runs element by element. It is modelled as the `if` at the head of the inner loop body, which reads the growing list.
- The returned `ArrayList` is modelled as a fresh sequence value. The caller's later mutation of it is not part of this model.
- `system-test/src/main/java/org/apache/mesos/elasticsearch/systemtest/Main.java` boots a local Mesos cluster: Docker, a shutdown-hook thread and an endless sleep loop. It is I/O and concurrency with no computable contract.
- `system-test/src/systemTest/java/org/apache/mesos/elasticsearch/systemtest/DiscoverySystemTest.java` is an end-to-end test over HTTP. It is network I/O.
