/** Cross-section names: each material's nuclide densities are re-keyed from nuclide
    ids to the cross-section library names of the geometry file; an id without a name
    is keyed by its decimal rendering, with a warning. */
module XsNames {
  import opened Common

  /** The digit character for a value below ten. */
  function Digit(d: nat): char
    requires d < 10
  {
    "0123456789"[d]
  }

  predicate IsDigit(c: char) {
    '0' <= c <= '9'
  }

  function DigitValue(c: char): nat
    requires IsDigit(c)
  {
    (c as int - '0' as int) as nat
  }

  /** The decimal rendering of a nuclide id, as string formatting gives it. */
  function NatToDecimal(n: nat): string
    decreases n
  {
    if n < 10 then [Digit(n)] else NatToDecimal(n / 10) + [Digit(n % 10)]
  }

  /** A canonical decimal numeral: digits only, and no leading zero unless it is "0". */
  predicate IsDecimal(s: string) {
    && |s| > 0
    && (forall i :: 0 <= i < |s| ==> IsDigit(s[i]))
    && (|s| > 1 ==> s[0] != '0')
  }

  /** The value a string of digits stands for. */
  function DecimalValue(s: string): nat
    requires forall i :: 0 <= i < |s| ==> IsDigit(s[i])
  {
    if |s| == 0 then 0 else DecimalValue(s[..|s| - 1]) * 10 + DigitValue(s[|s| - 1])
  }

  /** The rendering is a canonical numeral that reads back as the id. */
  lemma {:induction false} DecimalRoundTrip(n: nat)
    ensures IsDecimal(NatToDecimal(n))
    ensures DecimalValue(NatToDecimal(n)) == n
    decreases n
  {
    var s := NatToDecimal(n);
    if n >= 10 {
      DecimalRoundTrip(n / 10);
      var p := NatToDecimal(n / 10);
      assert s[..|s| - 1] == p;
      assert s[0] == p[0];
      assert DigitValue(Digit(n % 10)) == n % 10;
    } else {
      assert DigitValue(Digit(n)) == n;
    }
  }

  /** Different ids render differently. */
  lemma DecimalInjective(m: nat, n: nat)
    requires NatToDecimal(m) == NatToDecimal(n)
    ensures m == n
  {
    DecimalRoundTrip(m);
    DecimalRoundTrip(n);
  }

  // ---- re-keying one material ----

  /** The key a nuclide gets: its library name when the names know it, its id otherwise. */
  function XsKey(nucid: nat, nucNames: map<nat, string>): string {
    if nucid in nucNames then nucNames[nucid] else NatToDecimal(nucid)
  }

  /** out is a re-keying of the nuclides done of dens: its keys are exactly their keys,
      and each entry carries the density of one of them with that key. */
  ghost predicate PartRenamed(dens: map<nat, real>, nucNames: map<nat, string>, done: set<nat>,
                              out: map<string, real>) {
    && (forall name :: name in out <==> exists nucid :: nucid in done && XsKey(nucid, nucNames) == name)
    && (forall name :: name in out ==>
          exists nucid :: nucid in done && XsKey(nucid, nucNames) == name
                          && nucid in dens && out[name] == dens[nucid])
  }

  /** out is a re-keying of all of dens. */
  ghost predicate Renamed(dens: map<nat, real>, nucNames: map<nat, string>, out: map<string, real>) {
    PartRenamed(dens, nucNames, dens.Keys, out)
  }

  /** Entering one more nuclide under its key keeps the re-keying. */
  lemma RenameStep(dens: map<nat, real>, nucNames: map<nat, string>, done: set<nat>,
                   out: map<string, real>, nucid: nat)
    requires PartRenamed(dens, nucNames, done, out) && nucid in dens
    ensures PartRenamed(dens, nucNames, done + {nucid}, out[XsKey(nucid, nucNames) := dens[nucid]])
  {
    var key := XsKey(nucid, nucNames);
    var out' := out[key := dens[nucid]];
    forall name | name in out'
      ensures exists n :: n in done + {nucid} && XsKey(n, nucNames) == name && n in dens && out'[name] == dens[n]
    {
      if name == key {
        assert XsKey(nucid, nucNames) == name;
      } else {
        var n :| n in done && XsKey(n, nucNames) == name && n in dens && out[name] == dens[n];
        assert n in done + {nucid};
      }
    }
    forall name | exists n :: n in done + {nucid} && XsKey(n, nucNames) == name
      ensures name in out'
    {
      var n :| n in done + {nucid} && XsKey(n, nucNames) == name;
      if n != nucid {
        assert n in done;
      }
    }
  }

  /** No two nuclides of dens get the same key. */
  ghost predicate KeysDistinct(dens: map<nat, real>, nucNames: map<nat, string>) {
    forall m, n :: m in dens && n in dens && XsKey(m, nucNames) == XsKey(n, nucNames) ==> m == n
  }

  /** When no two nuclides share a key, every nuclide's density is found under its own
      key: nothing is lost or changed. */
  lemma RenamedExactly(dens: map<nat, real>, nucNames: map<nat, string>, out: map<string, real>, nucid: nat)
    requires Renamed(dens, nucNames, out) && KeysDistinct(dens, nucNames)
    requires nucid in dens
    ensures XsKey(nucid, nucNames) in out && out[XsKey(nucid, nucNames)] == dens[nucid]
  {
    var name := XsKey(nucid, nucNames);
    assert name in out;
    var n :| n in dens.Keys && XsKey(n, nucNames) == name && n in dens && out[name] == dens[n];
  }

  /** An id without a name cannot share a key with a named nuclide whose name is not
      a decimal numeral, nor with another unnamed id. */
  lemma UnnamedKeyDistinct(m: nat, n: nat, nucNames: map<nat, string>)
    requires m !in nucNames && m != n
    requires n in nucNames ==> !IsDecimal(nucNames[n])
    ensures XsKey(m, nucNames) != XsKey(n, nucNames)
  {
    DecimalRoundTrip(m);
    if n !in nucNames && NatToDecimal(m) == NatToDecimal(n) {
      DecimalInjective(m, n);
    }
  }

  lemma AppendNoDuplicates<T>(a: seq<T>, b: seq<T>)
    requires NoDuplicates(a) && NoDuplicates(b)
    requires forall x :: x in a ==> x !in b
    ensures NoDuplicates(a + b)
  {
    var c := a + b;
    forall i, j | 0 <= i < j < |c|
      ensures c[i] != c[j]
    {
      if i < |a| && j >= |a| {
        assert c[i] in a && c[j] == b[j - |a|];
      }
    }
  }

  /** Re-keys the densities of material mat, visiting its nuclides in the dictionary's
      order (any order); a nuclide without a name is warned about and keyed by its id.
      A later nuclide with the same key overwrites an earlier one. */
  method RenameDensities(mat: string, dens: map<nat, real>, nucNames: map<nat, string>)
    returns (out: map<string, real>, warned: seq<(string, nat)>)
    ensures Renamed(dens, nucNames, out)
    ensures forall m, nucid :: (m, nucid) in warned <==> m == mat && nucid in dens && nucid !in nucNames
    ensures NoDuplicates(warned)
  {
    out := map[];
    warned := [];
    var todo := dens.Keys;
    while todo != {}
      invariant todo <= dens.Keys
      invariant PartRenamed(dens, nucNames, dens.Keys - todo, out)
      invariant forall m, nucid :: (m, nucid) in warned <==>
                  m == mat && nucid in dens.Keys - todo && nucid !in nucNames
      invariant NoDuplicates(warned)
      decreases todo
    {
      var nucid :| nucid in todo;
      RenameStep(dens, nucNames, dens.Keys - todo, out, nucid);
      assert dens.Keys - todo + {nucid} == dens.Keys - (todo - {nucid});
      var name: string;
      if nucid in nucNames {
        name := nucNames[nucid];
      } else {
        warned := warned + [(mat, nucid)];
        name := NatToDecimal(nucid);
      }
      out := out[name := dens[nucid]];
      todo := todo - {nucid};
    }
  }

  /** Re-keys every material of the library; the warnings name the material and the
      nuclide id, in the order they are issued. */
  method NucidToXs(matLib: map<string, map<nat, real>>, nucNames: map<nat, string>)
    returns (matXsNames: map<string, map<string, real>>, warnings: seq<(string, nat)>)
    ensures matXsNames.Keys == matLib.Keys
    ensures forall mat :: mat in matXsNames ==> Renamed(matLib[mat], nucNames, matXsNames[mat])
    ensures forall mat, nucid :: (mat, nucid) in warnings <==>
              mat in matLib && nucid in matLib[mat] && nucid !in nucNames
    ensures NoDuplicates(warnings)
  {
    matXsNames := map[];
    warnings := [];
    var todo := matLib.Keys;
    while todo != {}
      invariant todo <= matLib.Keys && matXsNames.Keys == matLib.Keys - todo
      invariant forall mat :: mat in matXsNames ==> Renamed(matLib[mat], nucNames, matXsNames[mat])
      invariant forall mat, nucid :: (mat, nucid) in warnings <==>
                  mat in matLib - todo && nucid in matLib[mat] && nucid !in nucNames
      invariant NoDuplicates(warnings)
      decreases todo
    {
      var mat :| mat in todo;
      var out, warned := RenameDensities(mat, matLib[mat], nucNames);
      forall x | x in warnings
        ensures x !in warned
      {
        assert (x.0, x.1) in warnings;
      }
      AppendNoDuplicates(warnings, warned);
      matXsNames := matXsNames[mat := out];
      warnings := warnings + warned;
      todo := todo - {mat};
    }
  }

  // ---- the list of names ----

  /** The (id, name) pairs of the names dictionary, in its order (any order). */
  method GetXsNames(nucNames: map<nat, string>) returns (xsNames: seq<(nat, string)>)
    ensures |xsNames| == |nucNames|
    ensures forall nucid, name :: (nucid, name) in xsNames <==> nucid in nucNames && nucNames[nucid] == name
    ensures forall i, j :: 0 <= i < j < |xsNames| ==> xsNames[i].0 != xsNames[j].0
  {
    xsNames := [];
    var todo := nucNames.Keys;
    while todo != {}
      invariant todo <= nucNames.Keys
      invariant |xsNames| + |todo| == |nucNames.Keys|
      invariant forall nucid, name :: (nucid, name) in xsNames <==>
                  nucid in nucNames - todo && nucNames[nucid] == name
      invariant forall i :: 0 <= i < |xsNames| ==> xsNames[i].0 !in todo
      invariant forall i, j :: 0 <= i < j < |xsNames| ==> xsNames[i].0 != xsNames[j].0
      decreases todo
    {
      var nucid :| nucid in todo;
      xsNames := xsNames + [(nucid, nucNames[nucid])];
      todo := todo - {nucid};
    }
    assert |nucNames.Keys| == |nucNames|;
  }
}
