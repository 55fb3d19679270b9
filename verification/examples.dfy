/** Worked examples of the fixers, each checked against the general
    definitions. */
module Examples {
  import opened Documents
  import Dedup
  import ReleaseFixer
  import LicenseFixer
  import Text

  function Leaf(name: string, description: string): Field
  {
    Field(name, "keyword", map["description" := Str(description)], [])
  }

  function Group(name: string, children: seq<Field>): Field
  {
    Field(name, GroupKind, map[], children)
  }

  /** One step of deduplication on a node that is dropped. */
  lemma DropStep(f: Field, rest: seq<Field>, prefix: string, seen: seq<string>)
    requires Dedup.QName(prefix, f.name) in seen
    ensures Dedup.Dedup([f] + rest, prefix, seen) == Dedup.Dedup(rest, prefix, seen)
  {
    assert ([f] + rest)[1..] == rest;
  }

  /** One step of deduplication on a node that is kept. */
  lemma KeepStep(f: Field, rest: seq<Field>, prefix: string, seen: seq<string>)
    requires Dedup.QName(prefix, f.name) !in seen
    ensures var q := Dedup.QName(prefix, f.name);
      Dedup.Dedup([f] + rest, prefix, seen) == [Dedup.Emitted(f, q, seen)] + Dedup.Dedup(rest, prefix, seen + [q])
  {
    assert ([f] + rest)[1..] == rest;
  }

  /** `[a, a', c]` at one level becomes `[a, c]`, and the `a` kept is the
      first one, with its own attributes. */
  lemma FirstOccurrenceWins()
    ensures Dedup.Dedup([Leaf("a", "first"), Leaf("a", "second"), Leaf("c", "")], "", [])
         == [Leaf("a", "first"), Leaf("c", "")]
  {
    var a1, a2, c := Leaf("a", "first"), Leaf("a", "second"), Leaf("c", "");
    assert "keyword" != GroupKind by { assert "keyword"[0] != GroupKind[0]; }
    assert Dedup.QName("", "a") == ".a" && Dedup.QName("", "c") == ".c";
    assert ".c" != ".a" by { assert ".c"[1] != ".a"[1]; }
    KeepStep(c, [], "", [".a"]);
    DropStep(a2, [c], "", [".a"]);
    KeepStep(a1, [a2, c], "", []);
    assert [a1, a2, c] == [a1] + [a2, c] && [a2, c] == [a2] + [c] && [c] == [c] + [];
  }

  /** The same leaf name under two different groups survives in both. */
  lemma SameNameInTwoGroups()
    ensures var fs := [Group("g1", [Leaf("x", "")]), Group("g2", [Leaf("x", "")])];
      Dedup.Dedup(fs, "", []) == fs
  {
    var x := Leaf("x", "");
    var g1, g2 := Group("g1", [x]), Group("g2", [x]);
    assert "keyword" != GroupKind by { assert "keyword"[0] != GroupKind[0]; }
    assert Dedup.QName("", "g1") == ".g1" && Dedup.QName("", "g2") == ".g2";
    assert Dedup.QName(".g1", "x") == ".g1.x" && Dedup.QName(".g2", "x") == ".g2.x";
    assert ".g2" != ".g1" by { assert ".g2"[2] != ".g1"[2]; }
    assert ".g1.x" != ".g1" && ".g2.x" != ".g1" && ".g2.x" != ".g2";
    KeepStep(x, [], ".g1", [".g1"]);
    KeepStep(x, [], ".g2", [".g1", ".g2"]);
    KeepStep(g2, [], "", [".g1"]);
    KeepStep(g1, [g2], "", []);
    assert [g1, g2] == [g1] + [g2] && [g2] == [g2] + [] && [x] == [x] + [];
  }

  /** A duplicated group is dropped with its whole subtree: its children are
      not merged into the first group. */
  lemma DuplicateGroupDroppedWhole()
    ensures Dedup.Dedup([Group("g", [Leaf("x", "")]), Group("g", [Leaf("y", "")])], "", [])
         == [Group("g", [Leaf("x", "")])]
  {
    var x := Leaf("x", "");
    var g1, g2 := Group("g", [x]), Group("g", [Leaf("y", "")]);
    assert "keyword" != GroupKind by { assert "keyword"[0] != GroupKind[0]; }
    assert Dedup.QName("", "g") == ".g" && Dedup.QName(".g", "x") == ".g.x";
    assert ".g.x" != ".g";
    KeepStep(x, [], ".g", [".g"]);
    DropStep(g2, [], "", [".g"]);
    KeepStep(g1, [g2], "", []);
    assert [g1, g2] == [g1] + [g2] && [g2] == [g2] + [] && [x] == [x] + [];
  }

  /** Qualified names are plain strings: a top-level field literally named
      `a.b` claims the name `.a.b`, so a later child `b` of group `a` is
      dropped. */
  lemma DottedNameShadowsChild()
    ensures Dedup.Dedup([Leaf("a.b", ""), Group("a", [Leaf("b", "")])], "", [])
         == [Leaf("a.b", ""), Group("a", [])]
  {
    var ab, b := Leaf("a.b", ""), Leaf("b", "");
    var ga := Group("a", [b]);
    assert "keyword" != GroupKind by { assert "keyword"[0] != GroupKind[0]; }
    assert Dedup.QName("", "a.b") == ".a.b" && Dedup.QName("", "a") == ".a" && Dedup.QName(".a", "b") == ".a.b";
    assert ".a" != ".a.b";
    DropStep(b, [], ".a", [".a.b", ".a"]);
    KeepStep(ga, [], "", [".a.b"]);
    KeepStep(ab, [ga], "", []);
    assert [ab, ga] == [ab] + [ga] && [ga] == [ga] + [] && [b] == [b] + [];
  }

  /** `{release: experimental, version: 1.2.0}` contradicts itself and is
      refused; with version `0.1.0` only `release` is removed. */
  lemma ReleaseGuardExamples()
    ensures ReleaseFixer.RemoveRelease(map["release" := Str("experimental"), "version" := Str("1.2.0")])
         == ReleaseFixer.Mismatch
    ensures ReleaseFixer.RemoveRelease(map["release" := Str("experimental"), "version" := Str("0.1.0")])
         == ReleaseFixer.Removed(map["version" := Str("0.1.0")])
  {
    assert "1.2.0"[1] == '.' && "1.2.0"[0] != '.';
    assert Text.BeforeFirst("1.2.0", '.') == "1";
    assert Text.BeforeFirst("0.1.0", '.') == "0";
    assert !ReleaseFixer.IsGA("experimental") by {
      assert Text.LowerAscii("experimental")[0] == 'e';
    }
    var m := map["release" := Str("experimental"), "version" := Str("0.1.0")];
    assert m - {"release"} == map["version" := Str("0.1.0")];
  }

  /** A version with no `.` is its own major segment: `0` is pre-release. */
  lemma BareZeroIsPreRelease()
    ensures ReleaseFixer.IsPreReleaseVersion("0")
    ensures !ReleaseFixer.IsPreReleaseVersion("1")
  {
    assert Text.BeforeFirst("0", '.') == "0";
    assert Text.BeforeFirst("1", '.') == "1";
  }

  /** The line filter removes the `release: ` line and keeps the rest in
      order. */
  lemma LineFilterExample()
    ensures ReleaseFixer.KeptLines(["- name: a", "  release: ga", "  type: k"]) == ["- name: a", "  type: k"]
  {
    assert "  release: ga"[2..11] == "release: ";
    assert Text.OccursAt("  release: ga", "release: ", 2);
    assert !Text.Contains("- name: a", "release: ") by {
      assert "- name: a"[0] != 'r';
    }
    assert !Text.Contains("  type: k", "release: ");
  }

  /** `{license: basic, conditions: {kibana: ...}}` becomes
      `{conditions: {kibana: ..., elastic: {subscription: basic}}}`. */
  lemma LicenseRelocationExample()
    ensures var kibana := Mapping(map["version" := Str("^8.0.0")]);
      LicenseFixer.RelocateLicense(map["license" := Str("basic"), "conditions" := Mapping(map["kibana" := kibana])])
      == LicenseFixer.Relocated(map["conditions" := Mapping(map["kibana" := kibana,
                                                              "elastic" := Mapping(map["subscription" := Str("basic")])])])
  {
    var kibana := Mapping(map["version" := Str("^8.0.0")]);
    var m := map["license" := Str("basic"), "conditions" := Mapping(map["kibana" := kibana])];
    assert m - {"license"} == map["conditions" := Mapping(map["kibana" := kibana])];
  }
}
