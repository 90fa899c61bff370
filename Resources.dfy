/** The scheduler's resource helper: builders for the resources the framework
    declares at registration, and the two port selectors run on an offer.
    An offer is a sequence value, so the selectors cannot change it. */
module Resources {
  import opened JavaInt
  import opened Protos
  import opened PortSelection

  /** The three getters of the scheduler's configuration that the helper reads. */
  datatype Configuration = Configuration(cpus: real, mem: real, disk: real)

  // ---------------------------------------------------------------------------
  // Builders

  /** A RANGES resource named "ports" holding the single inclusive range `[beginPort, endPort]`. */
  function PortRange(beginPort: Int64, endPort: Int64): (r: Resource)
    ensures r.name == "ports" && r.value.Ranges? && r.value.ranges == [Range(beginPort, endPort)]
    ensures forall p :: Covers(r, p) <==> beginPort <= p <= endPort
  {
    var r := Resource("ports", Ranges([Range(beginPort, endPort)]));
    assert forall p :: beginPort <= p <= endPort ==> Covers(r, p) by {
      forall p | beginPort <= p <= endPort ensures Covers(r, p) {
        assert r.value.ranges[0].begin <= p <= r.value.ranges[0].end;
      }
    }
    r
  }

  /** The range of exactly one port. */
  function SinglePortRange(port: Int64): (r: Resource)
    ensures r == PortRange(port, port)
    ensures forall p :: Covers(r, p) <==> p == port
  {
    PortRange(port, port)
  }

  /** A SCALAR resource named "cpus" carrying `cpus` unchanged. */
  function Cpus(cpus: real): (r: Resource)
    ensures r.name == "cpus" && AmountOf(r) == Some(cpus)
    ensures forall p :: !Covers(r, p)
  {
    Resource("cpus", Scalar(cpus))
  }

  /** A SCALAR resource named "mem" carrying `mem` unchanged. */
  function Mem(mem: real): (r: Resource)
    ensures r.name == "mem" && AmountOf(r) == Some(mem)
    ensures forall p :: !Covers(r, p)
  {
    Resource("mem", Scalar(mem))
  }

  /** A SCALAR resource named "disk" carrying `disk` unchanged. */
  function Disk(disk: real): (r: Resource)
    ensures r.name == "disk" && AmountOf(r) == Some(disk)
    ensures forall p :: !Covers(r, p)
  {
    Resource("disk", Scalar(disk))
  }

  /** Reads a configuration back from declared resources: the scalar named "cpus",
      "mem" and "disk", each the first resource of its name. */
  function ConfigurationOf(rs: seq<Resource>): (c: Option<Configuration>)
    ensures c.Some? ==> ScalarNamed(rs, "cpus") == Some(c.value.cpus) &&
                        ScalarNamed(rs, "mem") == Some(c.value.mem) &&
                        ScalarNamed(rs, "disk") == Some(c.value.disk)
    ensures c.None? ==> ScalarNamed(rs, "cpus").None? || ScalarNamed(rs, "mem").None? || ScalarNamed(rs, "disk").None?
  {
    match (ScalarNamed(rs, "cpus"), ScalarNamed(rs, "mem"), ScalarNamed(rs, "disk"))
    case (Some(cpus), Some(mem), Some(disk)) => Some(Configuration(cpus, mem, disk))
    case _ => None
  }

  /** The resources the framework declares for itself: cpus, mem and disk, in that order,
      each carrying the configured amount. */
  function BuildFrameworkResources(configuration: Configuration): (rs: seq<Resource>)
    ensures |rs| == 3 && rs[0].name == "cpus" && rs[1].name == "mem" && rs[2].name == "disk"
    ensures AmountOf(rs[0]) == Some(configuration.cpus)
    ensures AmountOf(rs[1]) == Some(configuration.mem)
    ensures AmountOf(rs[2]) == Some(configuration.disk)
  {
    [Cpus(configuration.cpus), Mem(configuration.mem), Disk(configuration.disk)]
  }

  /** The declared resources give back exactly the configuration they were built from. */
  lemma FrameworkResourcesRoundTrip(configuration: Configuration)
    ensures ConfigurationOf(BuildFrameworkResources(configuration)) == Some(configuration)
  {
    var rs := BuildFrameworkResources(configuration);
    assert "cpus"[0] != "mem"[0] && "cpus"[0] != "disk"[0] && "mem"[0] != "disk"[0];
    assert ScalarNamed(rs, "cpus") == Some(configuration.cpus);
    assert ScalarNamed(rs, "mem") == ScalarNamed(rs[1..], "mem") == Some(configuration.mem);
    assert ScalarNamed(rs, "disk") == ScalarNamed(rs[1..][1..], "disk") == Some(configuration.disk);
  }

  // ---------------------------------------------------------------------------
  // Port selection

  /** The loop both selectors run: RANGES resources in order, their ranges in order,
      a range admitted only while fewer than `limit` ports are held. */
  method SelectPorts(offeredResources: seq<Resource>, limit: nat) returns (ports: seq<Int32>)
    ensures ports == Selection(offeredResources, limit)
  {
    ports := [];
    for i := 0 to |offeredResources|
      invariant ports == Selection(offeredResources[..i], limit)
    {
      assert offeredResources[..i + 1][..i] == offeredResources[..i];
      var resource := offeredResources[i];
      if resource.value.Ranges? {
        var ranges := resource.value.ranges;
        ghost var before := ports;
        for j := 0 to |ranges|
          invariant ports == AdmitRanges(before, ranges[..j], limit)
        {
          assert ranges[..j + 1][..j] == ranges[..j];
          var range := ranges[j];
          if |ports| < limit {
            ports := ports + [Narrow(range.begin)];
            if |ports| < limit && range.begin != range.end {
              ports := ports + [Successor(Narrow(range.begin))];
            }
          }
        }
        assert ranges[..|ranges|] == ranges;
      }
    }
    assert offeredResources[..|offeredResources|] == offeredResources;
  }

  /** Up to two ports: the first two of the offer's candidate stream, each the begin of an
      offered range or the port after it. */
  method SelectTwoPortsFromRange(offeredResources: seq<Resource>) returns (ports: seq<Int32>)
    ensures ports == Take(Candidates(offeredResources), 2)
    ensures |ports| == if OfferWeight(offeredResources) <= 2 then OfferWeight(offeredResources) else 2
    ensures forall p :: p in ports ==> Offered(offeredResources, p)
  {
    ports := SelectPorts(offeredResources, 2);
    SelectionIsFirstCandidates(offeredResources, 2);
    SelectionLength(offeredResources, 2);
    forall p | p in ports ensures Offered(offeredResources, p) {
      SelectedPortsComeFromRanges(offeredResources, 2, p);
    }
  }

  /** At most one port: the begin of the first range of the first RANGES resource. */
  method SelectOnePortsFromRange(offeredResources: seq<Resource>) returns (ports: seq<Int32>)
    ensures ports == match FirstRange(offeredResources) case None => [] case Some(rg) => [Narrow(rg.begin)]
    ensures ports == Take(Candidates(offeredResources), 1)
  {
    ports := SelectPorts(offeredResources, 1);
    SelectOneIsFirstBegin(offeredResources);
    SelectionIsFirstCandidates(offeredResources, 1);
  }
}
