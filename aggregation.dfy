/** The rewrites applied, in place, to the option dictionary of one
    (file, architecture) run: merging options whose results are identical,
    replacing the bare-space option by a printable label, and replacing the
    syscall trace by its compressed form. */
module Aggregation {
  import opened Text
  import opened OrderedMaps
  import opened RunResults

  // ---------------------------------------------------------------------
  // Merging identical results

  /** The first position of `acc` holding value `v`, or `|acc|` if none does. */
  function ValueIndex(acc: Options, v: Value): (j: nat)
    ensures j <= |acc|
    ensures j < |acc| ==> acc[j].1 == v
    ensures forall i :: 0 <= i < j ==> acc[i].1 != v
  {
    if |acc| == 0 then 0 else if acc[0].1 == v then 0 else 1 + ValueIndex(acc[1..], v)
  }

  lemma {:induction false} ValueIndexAt(acc: Options, v: Value, j: nat)
    requires j <= |acc|
    requires j < |acc| ==> acc[j].1 == v
    requires forall i :: 0 <= i < j ==> acc[i].1 != v
    ensures ValueIndex(acc, v) == j
  {
    if |acc| > 0 && acc[0].1 != v {
      ValueIndexAt(acc[1..], v, j - 1);
    }
  }

  /** Adds one option to an already merged dictionary: its name joins the key
      of the entry holding an equal value, or it is appended as it is. */
  function Absorb(acc: Options, e: (string, Value)): Options
  {
    var j := ValueIndex(acc, e.1);
    if j < |acc| then acc[j := (acc[j].0 + Separator + e.0, e.1)] else acc + [e]
  }

  /** The dictionary with every group of options holding equal values
      collapsed into one entry. */
  function Merge(s: Options): Options
  {
    if |s| == 0 then [] else Absorb(Merge(s[..|s| - 1]), s[|s| - 1])
  }

  /** The names of the options of `s` holding value `v`, in order. */
  function NamesWith(s: Options, v: Value): seq<string>
  {
    if |s| == 0 then []
    else NamesWith(s[..|s| - 1], v) + (if s[|s| - 1].1 == v then [s[|s| - 1].0] else [])
  }

  function Values(s: Options): set<Value>
  {
    set i | 0 <= i < |s| :: s[i].1
  }

  predicate DistinctValues(s: Options)
  {
    forall i, j :: 0 <= i < j < |s| ==> s[i].1 != s[j].1
  }

  lemma ValuesSnoc(s: Options)
    requires |s| > 0
    ensures Values(s) == Values(s[..|s| - 1]) + {s[|s| - 1].1}
  {
    var p := s[..|s| - 1];
    forall x | x in Values(s) ensures x in Values(p) + {s[|s| - 1].1} {
      var i :| 0 <= i < |s| && s[i].1 == x;
      if i < |s| - 1 { assert p[i].1 == x; }
    }
    forall x | x in Values(p) ensures x in Values(s) {
      var i :| 0 <= i < |p| && p[i].1 == x;
      assert s[i].1 == x;
    }
  }

  /** A name is in the group of `v` exactly when that option holds `v`. */
  lemma {:induction false} NamesWithMembers(s: Options, v: Value, k: string)
    ensures k in NamesWith(s, v) <==> exists i :: 0 <= i < |s| && s[i] == (k, v)
  {
    if |s| > 0 {
      var p := s[..|s| - 1];
      NamesWithMembers(p, v, k);
      if exists i :: 0 <= i < |s| && s[i] == (k, v) {
        var i :| 0 <= i < |s| && s[i] == (k, v);
        if i < |s| - 1 { assert p[i] == (k, v); }
      }
      if exists i :: 0 <= i < |p| && p[i] == (k, v) {
        var i :| 0 <= i < |p| && p[i] == (k, v);
        assert s[i] == (k, v);
      }
    }
  }

  /** A value's group is empty exactly when no option holds the value. */
  lemma {:induction false} NamesWithEmpty(s: Options, v: Value)
    ensures NamesWith(s, v) == [] <==> v !in Values(s)
  {
    if |s| > 0 {
      NamesWithEmpty(s[..|s| - 1], v);
      ValuesSnoc(s);
    }
  }

  /** The shape of a merge: values become pairwise distinct, no value is lost
      or invented, and each entry's key joins, in order, the names of all the
      options that held its value. */
  lemma {:induction false} MergeShape(s: Options)
    ensures DistinctValues(Merge(s))
    ensures Values(Merge(s)) == Values(s)
    ensures forall j :: 0 <= j < |Merge(s)| ==>
      |NamesWith(s, Merge(s)[j].1)| > 0 && Merge(s)[j].0 == Join(NamesWith(s, Merge(s)[j].1))
  {
    if |s| > 0 {
      var p, e := s[..|s| - 1], s[|s| - 1];
      MergeShape(p);
      ValuesSnoc(s);
      var acc := Merge(p);
      var j := ValueIndex(acc, e.1);
      var r := Merge(s);
      assert r == Absorb(acc, e);
      if j < |acc| {
        assert r == acc[j := (acc[j].0 + Separator + e.0, e.1)];
        assert e.1 in Values(acc);
        JoinSnoc(NamesWith(p, e.1), e.0);
        forall i | 0 <= i < |r| && i != j
          ensures NamesWith(s, r[i].1) == NamesWith(p, r[i].1)
        {
          assert r[i] == acc[i];
        }
        forall x | x in Values(acc) ensures x in Values(r) {
          var i :| 0 <= i < |acc| && acc[i].1 == x;
          assert r[i].1 == x;
        }
      } else {
        assert r == acc + [e];
        assert e.1 !in Values(acc);
        NamesWithEmpty(p, e.1);
        assert NamesWith(s, e.1) == [e.0];
        forall i | 0 <= i < |acc|
          ensures r[i] == acc[i] && NamesWith(s, r[i].1) == NamesWith(p, r[i].1)
        {
          assert acc[i].1 in Values(acc);
        }
        forall x | x in Values(r) ensures x in Values(acc) + {e.1} {
          var i :| 0 <= i < |r| && r[i].1 == x;
          if i < |acc| { assert acc[i].1 == x; }
        }
        forall x | x in Values(acc) ensures x in Values(r) {
          var i :| 0 <= i < |acc| && acc[i].1 == x;
          assert r[i].1 == x;
        }
        assert r[|acc|].1 == e.1;
      }
    }
  }

  /** Merging a dictionary whose values are already pairwise distinct changes nothing. */
  lemma {:induction false} MergeOfDistinct(s: Options)
    requires DistinctValues(s)
    ensures Merge(s) == s
  {
    if |s| > 0 {
      var p, e := s[..|s| - 1], s[|s| - 1];
      assert DistinctValues(p);
      MergeOfDistinct(p);
      ValueIndexAt(p, e.1, |p|);
    }
  }

  /** Merging is idempotent. */
  lemma MergeIdempotent(s: Options)
    ensures Merge(Merge(s)) == Merge(s)
  {
    MergeShape(s);
    MergeOfDistinct(Merge(s));
  }

  /** The number of entries after merging is the number of distinct values. */
  lemma {:induction false} MergeSize(s: Options)
    ensures |Merge(s)| == |Values(s)| <= |s|
  {
    MergeShape(s);
    DistinctValuesCount(Merge(s));
    ValuesCount(s);
  }

  lemma {:induction false} ValuesCount(s: Options)
    ensures |Values(s)| <= |s|
  {
    if |s| > 0 {
      ValuesSnoc(s);
      ValuesCount(s[..|s| - 1]);
    }
  }

  lemma {:induction false} DistinctValuesCount(s: Options)
    requires DistinctValues(s)
    ensures |Values(s)| == |s|
  {
    if |s| > 0 {
      var p := s[..|s| - 1];
      ValuesSnoc(s);
      assert DistinctValues(p);
      DistinctValuesCount(p);
      assert s[|s| - 1].1 !in Values(p);
    }
  }

  /** The option names of a dictionary. */
  function Names(s: Options): seq<string>
  {
    seq(|s|, i requires 0 <= i < |s| => s[i].0)
  }

  lemma GroupIsCommaFree(s: Options, v: Value)
    requires CommaFree(Names(s))
    ensures CommaFree(NamesWith(s, v))
  {
    forall k | k in NamesWith(s, v) ensures ',' !in k {
      NamesWithMembers(s, v, k);
      var i :| 0 <= i < |s| && s[i] == (k, v);
      assert Names(s)[i] == k;
    }
  }

  /** Every option keeps being named: the entry that holds its value has a key
      that contains its name as a substring and, read back, lists it. */
  lemma NamesSurviveMerge(s: Options, i: nat)
    requires i < |s| && CommaFree(Names(s))
    ensures exists j :: (0 <= j < |Merge(s)| && Merge(s)[j].1 == s[i].1
      && IsFactor(s[i].0, Merge(s)[j].0) && s[i].0 in Parts(Merge(s)[j].0))
  {
    MergeShape(s);
    var v := s[i].1;
    assert v in Values(s);
    var j :| 0 <= j < |Merge(s)| && Merge(s)[j].1 == v;
    var g := NamesWith(s, v);
    NamesWithMembers(s, v, s[i].0);
    NameInJoin(g, s[i].0);
    GroupIsCommaFree(s, v);
    PartsOfJoin(g);
  }

  /** An option whose value no other option shares stays as it is. */
  lemma UniqueEntrySurvives(s: Options, i: nat)
    requires i < |s|
    requires forall j :: 0 <= j < |s| && j != i ==> s[j].1 != s[i].1
    ensures s[i] in Merge(s)
  {
    MergeShape(s);
    var v := s[i].1;
    assert v in Values(s);
    var j :| 0 <= j < |Merge(s)| && Merge(s)[j].1 == v;
    NamesWithSingle(s, i);
    assert Merge(s)[j] == s[i];
  }

  /** The group of a value held by one option only is that option's name. */
  lemma {:induction false} NamesWithSingle(s: Options, i: nat)
    requires i < |s|
    requires forall j :: 0 <= j < |s| && j != i ==> s[j].1 != s[i].1
    ensures NamesWith(s, s[i].1) == [s[i].0]
  {
    var p := s[..|s| - 1];
    if i == |s| - 1 {
      assert forall j :: 0 <= j < |p| ==> p[j].1 != s[i].1;
      NamesWithEmpty(p, s[i].1);
    } else {
      assert p[i] == s[i];
      NamesWithSingle(p, i);
    }
  }

  /** The names in a group are distinct when the option names are. */
  lemma {:induction false} NamesWithDistinct(s: Options, v: Value)
    requires DistinctKeys(s)
    ensures forall a, b :: 0 <= a < b < |NamesWith(s, v)| ==> NamesWith(s, v)[a] != NamesWith(s, v)[b]
  {
    if |s| > 0 {
      var p := s[..|s| - 1];
      assert DistinctKeys(p);
      NamesWithDistinct(p, v);
      if s[|s| - 1].1 == v {
        var k := s[|s| - 1].0;
        assert k !in NamesWith(p, v) by {
          NamesWithMembers(p, v, k);
        }
      }
    }
  }

  /** With comma-free option names the merged keys are again distinct. */
  lemma MergeKeysDistinct(s: Options)
    requires DistinctKeys(s) && CommaFree(Names(s))
    ensures DistinctKeys(Merge(s))
  {
    var r := Merge(s);
    MergeShape(s);
    forall a, b | 0 <= a < b < |r| ensures r[a].0 != r[b].0 {
      if r[a].0 == r[b].0 {
        var ga, gb := NamesWith(s, r[a].1), NamesWith(s, r[b].1);
        GroupIsCommaFree(s, r[a].1);
        GroupIsCommaFree(s, r[b].1);
        JoinInjective(ga, gb);
        var k := ga[0];
        NamesWithMembers(s, r[a].1, k);
        NamesWithMembers(s, r[b].1, k);
      }
    }
  }

  /** Merging never creates a bare-space key: every merged key is one option
      name or contains the separator. */
  lemma MergeAddsNoSpaceKey(s: Options)
    requires SpaceOption !in Keys(s)
    ensures SpaceOption !in Keys(Merge(s))
  {
    var r := Merge(s);
    MergeShape(s);
    forall j | 0 <= j < |r| ensures r[j].0 != SpaceOption {
      var g := NamesWith(s, r[j].1);
      NamesWithMembers(s, r[j].1, g[0]);
      var i :| 0 <= i < |s| && s[i] == (g[0], r[j].1);
      assert s[i].0 in Keys(s);
      JoinIsNotOneChar(g, SpaceOption);
    }
  }

  lemma JoinIsNotOneChar(g: seq<string>, x: string)
    requires |g| > 0 && |x| == 1 && g[0] != x
    ensures Join(g) != x
  {
    if |g| > 1 {
      assert |Join(g)| >= |Separator|;
    }
  }

  /** The three results of the example: a complete one, one lacking a field,
      and one with other values. */
  const SameRun: Value := Record(map["a" := Str("x"), "b" := Str("x"), "c" := Str("x")])
  const ShortRun: Value := Record(map["a" := Str("x"), "b" := Str("x")])
  const OtherRun: Value := Record(map["a" := Str("y"), "b" := Str("y"), "c" := Str("y")])

  /** Five options of which three hold the same result. */
  function MergeExample(): Options
  {
    [("option_1", SameRun), ("option_2", SameRun), ("option_3", ShortRun),
     ("option_4", OtherRun), ("option_5", SameRun)]
  }

  lemma ExampleRunsDiffer()
    ensures SameRun != ShortRun && SameRun != OtherRun && ShortRun != OtherRun
  {
    assert "c" in SameRun.fields && "c" !in ShortRun.fields && "c" in OtherRun.fields;
    assert SameRun.fields["a"] != OtherRun.fields["a"];
  }

  /** Five options of which the first, second and fifth hold equal results
      merge into three entries; the shared entry's key names all three. */
  lemma MergeOfFive(same: Value, three: Value, other: Value)
    requires same != three && same != other && three != other
    ensures Merge([("option_1", same), ("option_2", same), ("option_3", three),
                   ("option_4", other), ("option_5", same)])
         == [("option_1, option_2, option_5", same), ("option_3", three), ("option_4", other)]
  {
    var s := [("option_1", same), ("option_2", same), ("option_3", three),
              ("option_4", other), ("option_5", same)];
    assert s[..1][..0] == [];
    assert Merge(s[..1]) == [("option_1", same)];
    assert s[..2][..1] == s[..1];
    assert "option_1" + Separator + "option_2" == "option_1, option_2";
    assert Merge(s[..2]) == [("option_1, option_2", same)];
    assert s[..3][..2] == s[..2];
    assert Merge(s[..3]) == [("option_1, option_2", same), ("option_3", three)];
    assert s[..4][..3] == s[..3];
    assert Merge(s[..4]) == [("option_1, option_2", same), ("option_3", three), ("option_4", other)];
    assert s[..4] == s[..|s| - 1];
    assert "option_1, option_2" + Separator + "option_5" == "option_1, option_2, option_5";
  }

  /** The five-option example merges into three entries, the shared one
      keyed by the names of all three options that hold it. */
  lemma MergeExampleResult()
    ensures Merge(MergeExample())
         == [("option_1, option_2, option_5", SameRun), ("option_3", ShortRun), ("option_4", OtherRun)]
  {
    ExampleRunsDiffer();
    MergeOfFive(SameRun, ShortRun, OtherRun);
  }

  /** The shared key of the example contains each of the three option names,
      which is what the membership test on the merged key checks. */
  lemma MergedExampleKeyNamesAll()
    ensures forall k :: k in ["option_1", "option_2", "option_5"] ==>
      IsFactor(k, "option_1, option_2, option_5")
  {
    var g := ["option_1", "option_2", "option_5"];
    assert Join(g) == "option_1, option_2, option_5" by {
      assert g[1..][1..] == ["option_5"];
    }
    forall k | k in g ensures IsFactor(k, Join(g)) {
      NameInJoin(g, k);
    }
  }

  /** The verdict reads an option dictionary through its keys. */
  lemma ValidRunByKey(s: Options)
    requires DistinctKeys(s)
    ensures ArchHasValidRun(Ran(s)) <==>
      exists k :: k in Keys(s) && k != TraceOption && OutputWithoutError(Get(s, k))
  {
    if ArchHasValidRun(Ran(s)) {
      var i :| 0 <= i < |s| && s[i].0 != TraceOption && OutputWithoutError(s[i].1);
      GetAt(s, i);
    }
    if exists k :: k in Keys(s) && k != TraceOption && OutputWithoutError(Get(s, k)) {
      var k :| k in Keys(s) && k != TraceOption && OutputWithoutError(Get(s, k));
      var i := IndexOf(s, k);
      assert s[i].0 != TraceOption && OutputWithoutError(s[i].1);
    }
  }

  /** Merging never changes whether the architecture shows real execution. */
  lemma MergePreservesVerdict(s: Options)
    requires DistinctKeys(s) && CommaFree(Names(s))
    ensures ArchHasValidRun(Ran(Merge(s))) <==> ArchHasValidRun(Ran(s))
  {
    if ArchHasValidRun(Ran(s)) { MergeKeepsValidRun(s); }
    if ArchHasValidRun(Ran(Merge(s))) { MergeInventsNoValidRun(s); }
  }

  lemma MergeKeepsValidRun(s: Options)
    requires CommaFree(Names(s)) && ArchHasValidRun(Ran(s))
    ensures ArchHasValidRun(Ran(Merge(s)))
  {
    var r := Merge(s);
    var i :| 0 <= i < |s| && s[i].0 != TraceOption && OutputWithoutError(s[i].1);
    var j := GroupOf(s, i);
    var g := NamesWith(s, s[i].1);
    GroupIsCommaFree(s, s[i].1);
    PartsOfJoin(g);
    TraceOptionParts();
    assert r[j].0 != TraceOption && OutputWithoutError(r[j].1);
  }

  /** The merged entry that holds the value of option `i`. */
  lemma GroupOf(s: Options, i: nat) returns (j: nat)
    requires i < |s|
    ensures j < |Merge(s)| && Merge(s)[j].1 == s[i].1
    ensures s[i].0 in NamesWith(s, s[i].1)
    ensures |NamesWith(s, s[i].1)| > 0 && Merge(s)[j].0 == Join(NamesWith(s, s[i].1))
  {
    MergeShape(s);
    assert s[i].1 in Values(s);
    j :| 0 <= j < |Merge(s)| && Merge(s)[j].1 == s[i].1;
    NamesWithMembers(s, s[i].1, s[i].0);
  }

  lemma TraceOptionParts()
    ensures Parts(TraceOption) == [TraceOption]
  {
    FirstCommaUnique(TraceOption, |TraceOption|);
  }

  lemma MergeInventsNoValidRun(s: Options)
    requires DistinctKeys(s) && ArchHasValidRun(Ran(Merge(s)))
    ensures ArchHasValidRun(Ran(s))
  {
    var r := Merge(s);
    MergeShape(s);
    var j :| 0 <= j < |r| && r[j].0 != TraceOption && OutputWithoutError(r[j].1);
    var g := NamesWith(s, r[j].1);
    NamesWithDistinct(s, r[j].1);
    var k := NonTraceName(g);
    NamesWithMembers(s, r[j].1, k);
    var i :| 0 <= i < |s| && s[i] == (k, r[j].1);
    assert s[i].0 != TraceOption && OutputWithoutError(s[i].1);
  }

  /** A group of distinct names whose key is not the trace option names some other option. */
  function NonTraceName(g: seq<string>): (k: string)
    requires |g| > 0 && Join(g) != TraceOption
    requires forall a, b :: 0 <= a < b < |g| ==> g[a] != g[b]
    ensures k in g && k != TraceOption
  {
    if |g| == 1 || g[0] != TraceOption then g[0] else g[1]
  }

  // ---------------------------------------------------------------------
  // The bare-space option

  /** The option consisting of a single space. */
  const SpaceOption: string := " "
  /** The printable label that stands for it. */
  const EmptyLabel: string := "(no parameter)"

  /** The dictionary with the bare-space option moved to the printable label. */
  function ReplaceEmpty(options: Options): (r: Options)
    ensures SpaceOption !in Keys(r)
    ensures EmptyLabel in Keys(r) <==> SpaceOption in Keys(options) || EmptyLabel in Keys(options)
    ensures SpaceOption in Keys(options) ==> Get(r, EmptyLabel) == Get(options, SpaceOption)
    ensures SpaceOption !in Keys(options) ==> r == options
    ensures forall k :: k != SpaceOption && k != EmptyLabel ==>
      (k in Keys(r) <==> k in Keys(options)) && (k in Keys(r) ==> Get(r, k) == Get(options, k))
    ensures DistinctKeys(options) ==> DistinctKeys(r)
  {
    if SpaceOption in Keys(options) then
      assert SpaceOption != EmptyLabel;
      Set(Pop(options, SpaceOption), EmptyLabel, Get(options, SpaceOption))
    else options
  }

  /** The example: the space option is gone, the label is there, and "-h" stays. */
  lemma ReplaceEmptyExample()
    ensures var r := ReplaceEmpty([("-h", TextRecord("0", "", "")), (" ", TextRecord("0", "", ""))]);
      " " !in Keys(r) && EmptyLabel in Keys(r) && "-h" in Keys(r)
  {
    var s := [("-h", TextRecord("0", "", "")), (" ", TextRecord("0", "", ""))];
    assert s[1].0 == SpaceOption && s[0].0 == "-h";
    assert "-h" != EmptyLabel && "-h" != SpaceOption;
  }

  /** Renaming the space option keeps the verdict, as long as the label was not in use. */
  lemma ReplaceEmptyPreservesVerdict(s: Options)
    requires DistinctKeys(s) && EmptyLabel !in Keys(s)
    ensures ArchHasValidRun(Ran(ReplaceEmpty(s))) <==> ArchHasValidRun(Ran(s))
  {
    var r := ReplaceEmpty(s);
    ValidRunByKey(s);
    ValidRunByKey(r);
    assert EmptyLabel[0] != TraceOption[0] && SpaceOption != TraceOption;
    if ArchHasValidRun(Ran(s)) {
      var k :| k in Keys(s) && k != TraceOption && OutputWithoutError(Get(s, k));
      ReplaceEmptyKeepsRun(s, k);
    }
    if ArchHasValidRun(Ran(r)) {
      var k :| k in Keys(r) && k != TraceOption && OutputWithoutError(Get(r, k));
      ReplaceEmptyKeepsRunBack(s, k);
    }
  }

  lemma ReplaceEmptyKeepsRun(s: Options, k: string)
    requires DistinctKeys(s) && EmptyLabel !in Keys(s) && k in Keys(s)
    ensures var k' := if k == SpaceOption then EmptyLabel else k;
      k' in Keys(ReplaceEmpty(s)) && Get(ReplaceEmpty(s), k') == Get(s, k)
  {
  }

  lemma ReplaceEmptyKeepsRunBack(s: Options, k: string)
    requires DistinctKeys(s) && EmptyLabel !in Keys(s) && k in Keys(ReplaceEmpty(s))
    ensures var k' := if k == EmptyLabel then SpaceOption else k;
      k' in Keys(s) && Get(ReplaceEmpty(s), k) == Get(s, k')
  {
  }

  // ---------------------------------------------------------------------
  // The syscall trace

  /** The trace entry holds captured text that is not empty. */
  predicate HasTraceText(options: Options)
  {
    && TraceOption in Keys(options)
    && Get(options, TraceOption).Record?
    && "stdout" in Get(options, TraceOption).fields
    && Get(options, TraceOption).fields["stdout"].Str?
    && Get(options, TraceOption).fields["stdout"].s != ""
  }

  /** The dictionary with the trace entry replaced by the compressed trace
      text, or by an empty dictionary when there is no trace text: absent,
      empty, an error marker or empty output. */
  function ProcessStrace(options: Options, compress: string -> seq<byte>): (r: Options)
    ensures Keys(r) == Keys(options) + {TraceOption}
    ensures HasTraceText(options) ==>
      Get(r, TraceOption) == Blob(compress(Get(options, TraceOption).fields["stdout"].s))
    ensures !HasTraceText(options) ==> Get(r, TraceOption) == Record(map[])
    ensures forall k :: k in Keys(options) && k != TraceOption ==> Get(r, k) == Get(options, k)
    ensures DistinctKeys(options) ==> DistinctKeys(r)
  {
    Set(options, TraceOption,
      if HasTraceText(options) then Blob(compress(Get(options, TraceOption).fields["stdout"].s))
      else Record(map[]))
  }

  /** The trace examples: nothing to compress gives an empty entry, text gives its compressed form. */
  lemma ProcessStraceExamples(compress: string -> seq<byte>)
    ensures Get(ProcessStrace([], compress), TraceOption) == Record(map[])
    ensures Get(ProcessStrace([(TraceOption, Record(map[]))], compress), TraceOption) == Record(map[])
    ensures Get(ProcessStrace([(TraceOption, Record(map["error" := Str("foo")]))], compress), TraceOption) == Record(map[])
    ensures Get(ProcessStrace([(TraceOption, Record(map["stdout" := Str("")]))], compress), TraceOption) == Record(map[])
    ensures Get(ProcessStrace([(TraceOption, Record(map["stdout" := Str("foobar")]))], compress), TraceOption)
      == Blob(compress("foobar"))
  {
    assert "stdout" != "error";
    var s: Options := [(TraceOption, Record(map["stdout" := Str("foobar")]))];
    assert Get(s, TraceOption) == Record(map["stdout" := Str("foobar")]) by { GetAt(s, 0); }
  }

  /** Processing the trace never changes the verdict, which ignores the trace. */
  lemma ProcessStracePreservesVerdict(s: Options, compress: string -> seq<byte>)
    requires DistinctKeys(s)
    ensures ArchHasValidRun(Ran(ProcessStrace(s, compress))) <==> ArchHasValidRun(Ran(s))
  {
    ValidRunByKey(s);
    ValidRunByKey(ProcessStrace(s, compress));
  }

  // ---------------------------------------------------------------------
  // The dictionary the rewrites work on

  /** The option dictionary of one run, rewritten in place. */
  class ArchResultSet {
    var options: Options

    ghost predicate Valid()
      reads this
    {
      DistinctKeys(options)
    }

    constructor (initial: Options)
      requires DistinctKeys(initial)
      ensures Valid() && options == initial
    {
      options := initial;
    }

    /** Moves the bare-space option to the printable label. */
    method ReplaceEmptyStrings()
      requires Valid()
      modifies this
      ensures Valid() && options == ReplaceEmpty(old(options))
    {
      if SpaceOption in Keys(options) {
        var v := Get(options, SpaceOption);
        options := Pop(options, SpaceOption);
        options := Set(options, EmptyLabel, v);
      }
    }

    /** Replaces the trace entry by its compressed text, or by an empty entry. */
    method ProcessStraceOutput(compress: string -> seq<byte>)
      requires Valid()
      modifies this
      ensures Valid() && options == ProcessStrace(old(options), compress)
    {
      var trace: Value := Record(map[]);
      if TraceOption in Keys(options) {
        var entry := Get(options, TraceOption);
        if entry.Record? && "stdout" in entry.fields && entry.fields["stdout"].Str? && entry.fields["stdout"].s != "" {
          trace := Blob(compress(entry.fields["stdout"].s));
        }
      }
      options := Set(options, TraceOption, trace);
    }

    /** Collapses every group of options with equal values into one entry
        whose key names them all. */
    method MergeSimilarEntries()
      requires Valid() && DistinctKeys(Merge(options))
      modifies this
      ensures Valid() && options == Merge(old(options))
    {
      var s := options;
      var merged: Options := [];
      var n := 0;
      while n < |s|
        invariant 0 <= n <= |s|
        invariant merged == Merge(s[..n])
      {
        var e := s[n];
        var j := 0;
        while j < |merged| && merged[j].1 != e.1
          invariant 0 <= j <= |merged|
          invariant forall i :: 0 <= i < j ==> merged[i].1 != e.1
        {
          j := j + 1;
        }
        ValueIndexAt(merged, e.1, j);
        if j < |merged| {
          merged := merged[j := (merged[j].0 + Separator + e.0, e.1)];
        } else {
          merged := merged + [e];
        }
        assert s[..n + 1][..n] == s[..n];
        n := n + 1;
      }
      assert s[..n] == s;
      options := merged;
    }
  }
}
