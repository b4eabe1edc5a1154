/**
 * A model of the filter-and-format loop of parse_cidrs.py.
 *
 * The script walks the `prefixes` list of an address-range document, keeps
 * the records whose `service` is exactly "EC2_INSTANCE_CONNECT", and for each
 * kept record appends the text block
 *
 *     "\n" + region + ":\n\tCIDR: " + ip_prefix
 *
 * to a string buffer that starts empty. `Render` is the specification of the
 * buffer after a sequence of records; `BuildListing` is the loop itself.
 */
module ParseCidrs {

  datatype Option<T> = None | Some(value: T)

  /** One element of the document's `prefixes` list. */
  datatype Prefix = Prefix(service: string, region: string, ipPrefix: string)

  /** The only service whose records are listed. */
  const InstanceConnect: string := "EC2_INSTANCE_CONNECT"

  /** The fixed text between the region and the address block of a listed record. */
  const Separator: string := ":\n\tCIDR: "

  /** The filter of the loop: exact, case-sensitive equality of the service name. */
  predicate IsInstanceConnect(p: Prefix) {
    p.service == InstanceConnect
  }

  /** The text block one listed record contributes. */
  function Block(p: Prefix): (b: string)
    ensures |b| == |p.region| + |p.ipPrefix| + 10
    ensures b[0] == '\n'
  {
    "\n" + p.region + Separator + p.ipPrefix
  }

  /** What one record adds to the buffer: its block if it is listed, nothing otherwise. */
  function Contribution(p: Prefix): string {
    if IsInstanceConnect(p) then Block(p) else ""
  }

  /**
   * The accumulation the loop performs: starting from the empty string,
   * `buffer += f(record)` for each of the first `n` records of `ps` in order.
   * `Render` uses it with `f := Contribution`; the general form is what
   * `AccumulateAgree` and `AccumulateAppend` are proved about.
   */
  function Accumulate(f: Prefix -> string, ps: seq<Prefix>, n: nat): string
    requires n <= |ps|
  {
    if n == 0 then "" else Accumulate(f, ps, n - 1) + f(ps[n - 1])
  }

  /** The buffer after the loop has seen every record of `ps`. */
  function Render(ps: seq<Prefix>): string {
    Accumulate(Contribution, ps, |ps|)
  }

  // ---------------------------------------------------------------------
  // The loop
  // ---------------------------------------------------------------------

  /** The `for` loop over the records, accumulating the listing with `+=`. */
  method BuildListing(prefixes: seq<Prefix>) returns (yaml: string)
    ensures yaml == Render(prefixes)
  {
    yaml := "";
    var i := 0;
    while i < |prefixes|
      invariant 0 <= i <= |prefixes|
      invariant yaml == Render(prefixes[..i])
    {
      var prefix := prefixes[i];
      RenderStep(prefixes, i);
      if prefix.service == InstanceConnect {
        var block := "\n" + prefix.region + ":\n\tCIDR: " + prefix.ipPrefix;
        assert block == Block(prefix);
        yaml := yaml + block;
      }
      i := i + 1;
    }
    assert prefixes[..i] == prefixes;
  }

  // ---------------------------------------------------------------------
  // A reference definition: an order-preserving filter, then a
  // concatenating map
  // ---------------------------------------------------------------------

  /** The listed records of `ps`, in their original order, duplicates kept. */
  function Matching(ps: seq<Prefix>): (r: seq<Prefix>)
    ensures |r| <= |ps|
    ensures forall q :: q in r <==> q in ps && IsInstanceConnect(q)
  {
    if ps == [] then []
    else (if IsInstanceConnect(ps[0]) then [ps[0]] else []) + Matching(ps[1..])
  }

  /** The blocks of every record of `ps`, concatenated in order. */
  function Blocks(ps: seq<Prefix>): string {
    if ps == [] then "" else Block(ps[0]) + Blocks(ps[1..])
  }

  /** Sum of |region| + |ip_prefix| + 10 over the listed records of `ps`. */
  function ListedLength(ps: seq<Prefix>): nat {
    if ps == [] then 0
    else (if IsInstanceConnect(ps[0]) then |ps[0].region| + |ps[0].ipPrefix| + 10 else 0)
         + ListedLength(ps[1..])
  }

  // ---------------------------------------------------------------------
  // Properties of the listing
  // ---------------------------------------------------------------------

  /** The first `n` steps depend only on the first `n` records. */
  lemma {:induction false} AccumulateAgree(f: Prefix -> string, ps: seq<Prefix>, qs: seq<Prefix>, n: nat)
    requires n <= |ps| && n <= |qs|
    requires forall i :: 0 <= i < n ==> ps[i] == qs[i]
    ensures Accumulate(f, ps, n) == Accumulate(f, qs, n)
  {
    if n > 0 {
      AccumulateAgree(f, ps, qs, n - 1);
    }
  }

  /** Accumulating over a concatenation concatenates the two accumulations. */
  lemma {:induction false} AccumulateAppend(f: Prefix -> string, xs: seq<Prefix>, ys: seq<Prefix>)
    ensures Accumulate(f, xs + ys, |xs + ys|) == Accumulate(f, xs, |xs|) + Accumulate(f, ys, |ys|)
    decreases |ys|
  {
    if ys == [] {
      assert xs + ys == xs;
    } else {
      var front := ys[..|ys| - 1];
      SplitLast(xs, ys);
      AccumulateAgree(f, xs + ys, xs + front, |xs + front|);
      AccumulateAgree(f, ys, front, |front|);
      AccumulateAppend(f, xs, front);
    }
  }

  lemma SplitLast(xs: seq<Prefix>, ys: seq<Prefix>)
    requires ys != []
    ensures ys == ys[..|ys| - 1] + [ys[|ys| - 1]]
    ensures xs + ys == (xs + ys[..|ys| - 1]) + [ys[|ys| - 1]]
  {
  }

  /** Appending one record appends exactly its contribution. */
  lemma RenderSnoc(ps: seq<Prefix>, p: Prefix)
    ensures Render(ps + [p]) == Render(ps) + Contribution(p)
  {
    AccumulateAgree(Contribution, ps + [p], ps, |ps|);
  }

  /** The rendering distributes over concatenation of record lists. */
  lemma RenderAppend(xs: seq<Prefix>, ys: seq<Prefix>)
    ensures Render(xs + ys) == Render(xs) + Render(ys)
  {
    AccumulateAppend(Contribution, xs, ys);
  }

  /** A single record contributes exactly its own contribution. */
  lemma RenderSingle(p: Prefix)
    ensures Render([p]) == Contribution(p)
  {
    assert Render([p]) == Accumulate(Contribution, [p], 0) + Contribution(p);
  }

  /** Seen from the front: the first record's contribution comes first. */
  lemma RenderCons(p: Prefix, ps: seq<Prefix>)
    ensures Render([p] + ps) == Contribution(p) + Render(ps)
  {
    RenderAppend([p], ps);
    RenderSingle(p);
  }

  /** The loop's output is the concatenated blocks of the filtered records. */
  lemma {:induction false} RenderIsBlocksOfMatching(ps: seq<Prefix>)
    ensures Render(ps) == Blocks(Matching(ps))
  {
    if ps != [] {
      assert ps == [ps[0]] + ps[1..];
      RenderCons(ps[0], ps[1..]);
      RenderIsBlocksOfMatching(ps[1..]);
      var m := Matching(ps[1..]);
      if IsInstanceConnect(ps[0]) {
        assert Matching(ps) == [ps[0]] + m;
        assert ([ps[0]] + m)[0] == ps[0];
        assert ([ps[0]] + m)[1..] == m;
        assert Blocks([ps[0]] + m) == Block(ps[0]) + Blocks(m);
      } else {
        assert Matching(ps) == [] + m == m;
      }
    }
  }

  /** The listing is empty exactly when no record is an EC2_INSTANCE_CONNECT one. */
  lemma {:induction false} RenderEmptyIffNoMatch(ps: seq<Prefix>)
    ensures Render(ps) == "" <==> forall i :: 0 <= i < |ps| ==> !IsInstanceConnect(ps[i])
  {
    if ps != [] {
      var rest := ps[1..];
      assert ps == [ps[0]] + rest;
      RenderCons(ps[0], rest);
      RenderEmptyIffNoMatch(rest);
      assert forall i :: 1 <= i < |ps| ==> ps[i] == rest[i - 1];
    }
  }

  /** The empty document lists nothing. */
  lemma RenderOfNoRecords()
    ensures Render([]) == ""
  {
  }

  /** A non-empty listing starts with a newline. */
  lemma {:induction false} RenderStartsWithNewline(ps: seq<Prefix>)
    ensures Render(ps) != "" ==> Render(ps)[0] == '\n'
  {
    if ps != [] {
      assert ps == [ps[0]] + ps[1..];
      RenderCons(ps[0], ps[1..]);
      RenderStartsWithNewline(ps[1..]);
    }
  }

  /** The length of the listing is the sum of |region| + |ip_prefix| + 10 over listed records. */
  lemma {:induction false} RenderLength(ps: seq<Prefix>)
    ensures |Render(ps)| == ListedLength(ps)
  {
    if ps != [] {
      assert ps == [ps[0]] + ps[1..];
      RenderCons(ps[0], ps[1..]);
      RenderLength(ps[1..]);
    }
  }

  /** One more record only appends its contribution to the buffer. */
  lemma RenderStep(ps: seq<Prefix>, i: nat)
    requires i < |ps|
    ensures Render(ps[..i + 1]) == Render(ps[..i]) + Contribution(ps[i])
    ensures !IsInstanceConnect(ps[i]) ==> Render(ps[..i + 1]) == Render(ps[..i])
  {
    assert ps[..i + 1] == ps[..i] + [ps[i]];
    RenderSnoc(ps[..i], ps[i]);
  }

  /** The buffer after `i` steps is a prefix of the buffer after `j >= i` steps. */
  lemma RenderPrefixGrows(ps: seq<Prefix>, i: nat, j: nat)
    requires i <= j <= |ps|
    ensures Render(ps[..i]) <= Render(ps[..j])
  {
    assert ps[..j] == ps[..i] + ps[i..j];
    RenderAppend(ps[..i], ps[i..j]);
  }

  /** A record of another service can be dropped from anywhere without changing the listing. */
  lemma NonMatchingIsInvisible(xs: seq<Prefix>, p: Prefix, ys: seq<Prefix>)
    requires !IsInstanceConnect(p)
    ensures Render(xs + [p] + ys) == Render(xs + ys)
  {
    RenderAppend(xs + [p], ys);
    RenderSnoc(xs, p);
    RenderAppend(xs, ys);
  }

  /** The match is case-sensitive: a lower-case service name lists nothing. */
  lemma LowercaseServiceExcluded(p: Prefix)
    requires p.service == "ec2_instance_connect"
    ensures Render([p]) == ""
  {
    assert p.service[0] != InstanceConnect[0];
    RenderSingle(p);
  }

  /** No deduplication: every occurrence of a listed record is kept by the filter. */
  lemma {:induction false} MatchingKeepsDuplicates(ps: seq<Prefix>, p: Prefix)
    requires IsInstanceConnect(p)
    ensures multiset(Matching(ps))[p] == multiset(ps)[p]
  {
    if ps != [] {
      assert ps == [ps[0]] + ps[1..];
      MatchingKeepsDuplicates(ps[1..], p);
    }
  }

  /** Two identical listed records produce their block twice. */
  lemma DuplicateRecordListedTwice(p: Prefix)
    requires IsInstanceConnect(p)
    ensures Render([p, p]) == Block(p) + Block(p)
  {
    assert [p, p] == [p] + [p];
    RenderCons(p, [p]);
    RenderSingle(p);
  }

  /** The worked example: one EC2_INSTANCE_CONNECT record and one AMAZON record. */
  lemma ExampleDocument()
    ensures Render([Prefix("EC2_INSTANCE_CONNECT", "us-east-1", "10.0.0.0/16"),
                    Prefix("AMAZON", "us-west-2", "10.1.0.0/16")])
            == "\nus-east-1:\n\tCIDR: 10.0.0.0/16"
  {
    var a := Prefix("EC2_INSTANCE_CONNECT", "us-east-1", "10.0.0.0/16");
    var b := Prefix("AMAZON", "us-west-2", "10.1.0.0/16");
    assert Contribution(b) == "" by {
      assert b.service[0] != InstanceConnect[0];
    }
    assert Contribution(a) == "\nus-east-1:\n\tCIDR: 10.0.0.0/16";
    assert [a, b] == [a] + [b];
    RenderSnoc([a], b);
    RenderSingle(a);
  }

  // ---------------------------------------------------------------------
  // Region and address block are copied verbatim
  // ---------------------------------------------------------------------

  /** Index of the first newline of `s` at or after `from`, or |s| if there is none. */
  function FirstNewline(s: string, from: nat): (k: nat)
    requires from <= |s|
    ensures from <= k <= |s|
    ensures k < |s| ==> s[k] == '\n'
    ensures forall j :: from <= j < k ==> s[j] != '\n'
    decreases |s| - from
  {
    if from == |s| || s[from] == '\n' then from else FirstNewline(s, from + 1)
  }

  /**
   * Reads the region and the address block back out of one block, taking
   * the region to end at the first newline after the leading one.
   */
  function ParseBlock(s: string): (r: Option<(string, string)>)
    ensures r.Some? ==> '\n' !in r.value.0 && s == "\n" + r.value.0 + Separator + r.value.1
  {
    if |s| == 0 || s[0] != '\n' then None
    else
      var k := FirstNewline(s, 1);
      if 2 <= k && k - 1 + |Separator| <= |s| && s[k - 1..k - 1 + |Separator|] == Separator then
        var region := s[1..k - 1];
        var ipPrefix := s[k - 1 + |Separator|..];
        assert forall j :: 0 <= j < |region| ==> region[j] == s[j + 1];
        assert s == "\n" + region + Separator + ipPrefix;
        Some((region, ipPrefix))
      else None
  }

  /** A block holds the record's region and address block unchanged, whatever they are. */
  lemma BlockRoundTrip(p: Prefix)
    requires '\n' !in p.region
    ensures ParseBlock(Block(p)) == Some((p.region, p.ipPrefix))
  {
    var s := Block(p);
    var n := |p.region|;
    assert s[1..1 + n] == p.region;
    assert forall j :: 1 <= j < 1 + n ==> s[j] == p.region[j - 1];
    assert s[1 + n] == ':' && s[2 + n] == '\n';
    assert FirstNewline(s, 1) == 2 + n;
    assert s[1 + n..1 + n + |Separator|] == Separator;
    assert s[1 + n + |Separator|..] == p.ipPrefix;
  }

  /**
   * Nothing is escaped: a region holding the separator text gives the same
   * block as a different record, so the listing cannot always be read back.
   */
  lemma BlockAmbiguousWithoutEscaping()
    ensures Block(Prefix(InstanceConnect, "a" + Separator + "b", "c"))
         == Block(Prefix(InstanceConnect, "a", "b" + Separator + "c"))
    ensures Prefix(InstanceConnect, "a" + Separator + "b", "c")
         != Prefix(InstanceConnect, "a", "b" + Separator + "c")
  {
  }
}
