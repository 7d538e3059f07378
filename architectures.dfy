/** Resolving the QEMU binaries to try from the type descriptor of a file
    (the text `file` prints for an executable): the first catalog entry whose
    architecture name occurs in the descriptor decides, and the catalog lists
    specific variants before the generic names they contain. */
module Architectures {
  import opened Text
  import opened OrderedMaps

  /** Architecture name -> suffixes of the `qemu-<suffix>` binaries, in the
      order the lookup tries them. */
  type ArchCatalog = OrderedMap<string, seq<string>>

  const Catalog: ArchCatalog := [
    ("aarch64", ["aarch64"]),
    ("ARM", ["aarch64", "arm", "armeb"]),
    ("MIPS32", ["mipsel", "mips", "mipsn32", "mipsn32el"]),
    ("MIPS64", ["mips64", "mips64el"]),
    ("MIPS", ["mipsel", "mips", "mips64", "mips64el", "mipsn32", "mipsn32el"]),
    ("80386", ["i386"]),
    ("80486", ["x86_64", "i386"]),
    ("x86", ["x86_64", "i386"]),
    ("PowerPC", ["ppc", "ppc64", "ppc64abi32", "ppc64le"]),
    ("PPC", ["ppc", "ppc64", "ppc64abi32", "ppc64le"]),
    ("Renesas SH", ["sh4", "sh4eb"])
  ]

  /** The position of the first entry of `c` whose name occurs in `descriptor`,
      or `|c|` when none does. */
  function FirstMatch(descriptor: string, c: ArchCatalog): (i: nat)
    ensures i <= |c|
    ensures i < |c| ==> IsFactor(c[i].0, descriptor)
    ensures forall j :: 0 <= j < i ==> !IsFactor(c[j].0, descriptor)
  {
    if |c| == 0 then 0
    else if IsFactor(c[0].0, descriptor) then 0
    else 1 + FirstMatch(descriptor, c[1..])
  }

  /** The binaries to try for a file with this type descriptor, or none. */
  function FindArchSuffixes(descriptor: string): (r: seq<string>)
    ensures r == [] <==> forall j :: 0 <= j < |Catalog| ==> !IsFactor(Catalog[j].0, descriptor)
    ensures r != [] ==> exists i :: (0 <= i < |Catalog| && r == Catalog[i].1
      && IsFactor(Catalog[i].0, descriptor)
      && forall j :: 0 <= j < i ==> !IsFactor(Catalog[j].0, descriptor))
  {
    var i := FirstMatch(descriptor, Catalog);
    if i < |Catalog| then Catalog[i].1 else []
  }

  // ---------------------------------------------------------------------
  // Specific before generic

  /** A sufficient test that `p` does not occur in `s`: it is longer, or as
      long and different, or its first or last character is missing from `s`. */
  predicate Excludes(p: string, s: string)
  {
    || |p| > |s|
    || (|p| == |s| && p != s)
    || (|p| > 0 && (p[0] !in s || p[|p| - 1] !in s))
  }

  lemma FactorNotExcluded(p: string, s: string)
    requires IsFactor(p, s)
    ensures !Excludes(p, s)
  {
    IsFactorIffOccurs(p, s);
    var i: nat :| OccursAt(p, s, i);
    if |p| > 0 {
      assert p[0] == s[i] && p[|p| - 1] == s[i + |p| - 1];
    }
    if |p| == |s| {
      assert s[i..i + |p|] == s;
    }
  }

  lemma ExcludesIsSound(p: string, s: string)
    requires Excludes(p, s)
    ensures !IsFactor(p, s)
  {
    if IsFactor(p, s) {
      FactorNotExcluded(p, s);
    }
  }

  /** No architecture name occurs in a name listed after it, so whenever a
      descriptor names a variant, the variant's entry is reached before the
      entry of any generic name it contains. */
  lemma CatalogSpecificFirst()
    ensures forall i, j :: 0 <= i < j < |Catalog| ==> !IsFactor(Catalog[i].0, Catalog[j].0)
  {
    forall i, j | 0 <= i < j < |Catalog| ensures !IsFactor(Catalog[i].0, Catalog[j].0) {
      CatalogPairExcluded(i, j);
      ExcludesIsSound(Catalog[i].0, Catalog[j].0);
    }
  }

  lemma CatalogPairExcluded(i: nat, j: nat)
    requires i < j < |Catalog|
    ensures Excludes(Catalog[i].0, Catalog[j].0)
  {
    // One case per earlier name keeps each proof obligation small.
    if i == 0 {} else if i == 1 {} else if i == 2 {} else if i == 3 {} else if i == 4 {}
    else if i == 5 {} else if i == 6 {} else if i == 7 {} else if i == 8 {} else {}
  }

  /** The entry chosen is never one whose name is part of another matching
      name: a more specific matching variant always wins. */
  lemma MostSpecificWins(descriptor: string, j: nat)
    requires j < |Catalog| && IsFactor(Catalog[j].0, descriptor)
    ensures FirstMatch(descriptor, Catalog) <= j
    ensures var i := FirstMatch(descriptor, Catalog);
      i == j || !IsFactor(Catalog[i].0, Catalog[j].0)
  {
    CatalogSpecificFirst();
  }

  // ---------------------------------------------------------------------
  // The examples

  /** "ELF 32-bit MSB executable, MIPS, MIPS32 rel2 version 1 (SYSV), statically linked" */
  // Written as pieces so that the proofs about it can reason one piece at a time.
  const MipsDescriptor: string :=
    "ELF 32-bit MSB executable, " + "MIPS, " + "MIPS32" + " rel2 " + "version 1 (SYSV), " + "statically linked"

  /** The MIPS descriptor resolves to the MIPS32 binaries, not the MIPS ones. */
  lemma MipsDescriptorResolvesToMips32()
    ensures FindArchSuffixes(MipsDescriptor) == Catalog[2].1
    ensures Catalog[2].0 == "MIPS32" && Catalog[4].0 == "MIPS"
    ensures FindArchSuffixes(MipsDescriptor) != Catalog[4].1
  {
    MipsDescriptorNames();
    FirstMatchAt(MipsDescriptor, Catalog, 2);
  }

  /** The MIPS descriptor names neither ARM variant but does name MIPS32. */
  lemma MipsDescriptorNames()
    ensures !IsFactor(Catalog[0].0, MipsDescriptor) && !IsFactor(Catalog[1].0, MipsDescriptor)
    ensures IsFactor(Catalog[2].0, MipsDescriptor)
  {
    MipsDescriptorLacks('h');
    MissingCharNotFactor(Catalog[0].0, MipsDescriptor, 'h');
    MipsDescriptorLacks('R');
    MissingCharNotFactor(Catalog[1].0, MipsDescriptor, 'R');
    MipsDescriptorHasMips32();
  }

  lemma MissingCharNotFactor(p: string, s: string, c: char)
    requires c in p && c !in s
    ensures !IsFactor(p, s)
  {
    if IsFactor(p, s) { FactorElements(p, s, c); }
  }

  lemma MipsDescriptorLacks(c: char)
    requires c == 'h' || c == 'R'
    ensures c !in MipsDescriptor
  {
    assert c !in "ELF 32-bit MSB executable, " && c !in "MIPS, " && c !in "MIPS32" && c !in " rel2 ";
    assert c !in "version 1 (SYSV), " && c !in "statically linked";
  }

  lemma MipsDescriptorHasMips32()
    ensures IsFactor("MIPS32", MipsDescriptor)
  {
    var front := "ELF 32-bit MSB executable, " + "MIPS, ";
    var back := " rel2 " + "version 1 (SYSV), " + "statically linked";
    assert MipsDescriptor == front + "MIPS32" + back;
    FactorOfItself("MIPS32", front, back);
  }

  /** The first match is at `i` as soon as `i` matches and nothing before it does. */
  lemma FirstMatchAt(descriptor: string, c: ArchCatalog, i: nat)
    requires i < |c| && IsFactor(c[i].0, descriptor)
    requires forall j :: 0 <= j < i ==> !IsFactor(c[j].0, descriptor)
    ensures FirstMatch(descriptor, c) == i
  {
  }

  /** A descriptor naming no architecture gives no binaries. */
  lemma UnknownDescriptorResolvesToNothing()
    ensures FindArchSuffixes("foo") == []
  {
    forall j | 0 <= j < |Catalog| ensures !IsFactor(Catalog[j].0, "foo") {
      assert Excludes(Catalog[j].0, "foo") by {
        if j == 0 {} else if j == 1 {} else if j == 2 {} else if j == 3 {} else if j == 4 {}
        else if j == 5 {} else if j == 6 {} else if j == 7 {} else if j == 8 {} else if j == 9 {} else {}
      }
      ExcludesIsSound(Catalog[j].0, "foo");
    }
  }
}
