/**
 The per-table overrides applied to introspected table metadata before it is
 used for dependency ordering and export.

 `ApplyTableFilters` is the dispatch on the table name, written as the
 source writes it: one case per table, each assigning fields of a copy of
 the table. `Registry` states the same overrides as data, one `Rule` of
 effects per table name, and `Filtered` applies a rule generically; the
 method is proved to agree with `Filtered`, and the properties of the
 overrides are lemmas about `Filtered`.
 */
module TableFilters {
  import opened Schema

  /** The effects one override applies. `None` or empty leaves a field as
      it is. */
  datatype Rule = Rule(
    pkSequence: Option<string> := None,
    virtualIndex: Option<seq<string>> := None,
    mainIndex: Option<string> := None,
    unexport: Option<set<string>> := None,
    typeColumnIndexes: seq<string> := [],
    retargetRegToken: bool := false,
    callback: Option<RowModCallback> := None)

  /** The column appended to the `rhnpackageevr` unique indexes. */
  const TypeColumn: string := "type"

  /** The reference that replaces every reference to `rhnregtoken`. */
  const ActivationKeyReference: Reference :=
    Reference("rhnactivationkey", map["token_id" := "reg_token_id"])

  /** The overrides, by table name. */
  function Registry(name: string): (r: Option<Rule>)
    ensures r.Some? ==> Distinct(r.value.typeColumnIndexes)
  {
    match name
    case "rhnchecksumtype" => Some(Rule(pkSequence := Some("rhn_checksum_id_seq")))
    case "rhnchecksum" => Some(Rule(pkSequence := Some("rhnchecksum_seq")))
    case "rhnpackagearch" => Some(Rule(pkSequence := Some("rhn_package_arch_id_seq")))
    case "rhnchannelarch" => Some(Rule(pkSequence := Some("rhn_channel_arch_id_seq")))
    case "rhnpackagename" => Some(Rule(pkSequence := Some("RHN_PKG_NAME_SEQ")))
    case "rhnpackagenevra" => Some(Rule(pkSequence := Some("rhn_pkgnevra_id_seq")))
    case "rhnpackagesource" => Some(Rule(pkSequence := Some("rhn_package_source_id_seq")))
    case "rhnpackagekey" => Some(Rule(pkSequence := Some("rhn_pkey_id_seq")))
    case "rhnpackageextratag" => Some(Rule(virtualIndex := Some(["package_id", "key_id"])))
    case "rhnpackageevr" =>
      Some(Rule(pkSequence := Some("rhn_pkg_evr_seq"), unexport := Some({TypeColumn}),
                typeColumnIndexes := ["rhn_pe_v_r_e_uq", "rhn_pe_v_r_uq"]))
    case "rhnpackage" =>
      Some(Rule(pkSequence := Some("RHN_PACKAGE_ID_SEQ"),
                virtualIndex := Some(["name_id", "evr_id", "package_arch_id", "checksum_id", "org_id"])))
    case "rhnpackagechangelogdata" =>
      Some(Rule(pkSequence := Some("rhn_pkg_cld_id_seq"), virtualIndex := Some(["name", "text", "time"])))
    case "rhnpackagechangelogrec" => Some(Rule(pkSequence := Some("rhn_pkg_cl_id_seq")))
    case "rhnpackagecapability" =>
      Some(Rule(pkSequence := Some("RHN_PKG_CAPABILITY_ID_SEQ"), virtualIndex := Some(["name", "version"])))
    case "rhnconfigfiletype" => Some(Rule(virtualIndex := Some(["label"])))
    case "rhnconfigfile" => Some(Rule(unexport := Some({"latest_config_revision_id"})))
    case "rhnconfigcontent" =>
      Some(Rule(virtualIndex := Some(["contents", "file_size", "checksum_id", "is_binary",
                                      "delim_start", "delim_end", "created"])))
    case "suseimageinfo" =>
      Some(Rule(unexport := Some({"build_action_id", "inspect_action_id", "build_server_id", "log"}),
                virtualIndex := Some(["name", "version", "image_type", "image_arch_id", "org_id",
                                      "curr_revision_num"])))
    case "suseimageinfochannel" => Some(Rule(virtualIndex := Some(["channel_id", "image_info_id"])))
    case "suseimageprofile" => Some(Rule(pkSequence := Some("suse_imgprof_prid_seq"), retargetRegToken := true))
    case "susekiwiprofile" => Some(Rule(virtualIndex := Some(["profile_id"])))
    case "susedockerfileprofile" => Some(Rule(virtualIndex := Some(["profile_id", "path"])))
    case "rhnerrata" =>
      Some(Rule(mainIndex := Some("rhn_errata_adv_org_uq"), callback := Some(ErrataSeverityReset)))
    case "susesaltpillar" =>
      Some(Rule(callback := Some(ImagePillarRewrite),
                virtualIndex := Some(["server_id", "group_id", "org_id", "category"])))
    case "suseimagefile" =>
      Some(Rule(pkSequence := Some("suse_image_file_id_seq"), virtualIndex := Some(["image_info_id", "file"])))
    case _ => None
  }

  /** One reference after retargeting. */
  function Retargeted(r: Reference): Reference
  {
    if r.TableName == "rhnregtoken" then ActivationKeyReference else r
  }

  /** The reference list after retargeting, element by element. */
  function RetargetedReferences(refs: seq<Reference>): (out: seq<Reference>)
  {
    seq(|refs|, i requires 0 <= i < |refs| => Retargeted(refs[i]))
  }

  /** The index entry a lookup in a Go map yields: the stored one, or the
      zero value (no name, no columns) for a missing key. */
  function IndexOrZero(m: map<string, UniqueIndex>, name: string): UniqueIndex
  {
    if name in m then m[name] else UniqueIndex("", [])
  }

  /** No name occurs twice. */
  predicate Distinct(names: seq<string>)
  {
    forall i, j :: 0 <= i < j < |names| ==> names[i] != names[j]
  }

  /** `m` with `TypeColumn` appended to the column list of each named index;
      an index that is missing is read as the zero value and becomes just
      `TypeColumn`. */
  function AppendTypeColumn(m: map<string, UniqueIndex>, names: seq<string>): (r: map<string, UniqueIndex>)
    requires Distinct(names)
    ensures r.Keys == m.Keys + set n | n in names
    ensures forall k :: k in names ==> r[k] == UniqueIndex(k, IndexOrZero(m, k).Columns + [TypeColumn])
    ensures forall k :: k in m && k !in names ==> r[k] == m[k]
    decreases |names|
  {
    if names == [] then m
    else
      var n := names[0];
      DistinctTail(names);
      AppendTypeColumn(m[n := UniqueIndex(n, IndexOrZero(m, n).Columns + [TypeColumn])], names[1..])
  }

  /** The head of a list of distinct names is not in its tail, and the tail
      is distinct. */
  lemma DistinctTail(names: seq<string>)
    requires names != [] && Distinct(names)
    ensures Distinct(names[1..]) && names[0] !in names[1..]
    ensures forall k :: k in names <==> k == names[0] || k in names[1..]
  {
    assert names == [names[0]] + names[1..];
  }

  /** A table with the effects of rule `r` applied. */
  function ApplyRule(r: Rule, t: Table): Table
    requires Distinct(r.typeColumnIndexes)
  {
    var withVirtual :=
      if r.virtualIndex.Some?
      then t.UniqueIndexes[VirtualIndexName := UniqueIndex(VirtualIndexName, r.virtualIndex.value)]
      else t.UniqueIndexes;
    t.(PKSequence := if r.pkSequence.Some? then r.pkSequence.value else t.PKSequence,
       UniqueIndexes := AppendTypeColumn(withVirtual, r.typeColumnIndexes),
       MainUniqueIndexName :=
         if r.virtualIndex.Some? then VirtualIndexName
         else if r.mainIndex.Some? then r.mainIndex.value
         else t.MainUniqueIndexName,
       UnexportColumns := if r.unexport.Some? then r.unexport.value else t.UnexportColumns,
       References := if r.retargetRegToken then RetargetedReferences(t.References) else t.References,
       RowModCallback := if r.callback.Some? then r.callback.value else t.RowModCallback)
  }

  /** The table with its registered override, if any, applied. */
  function Filtered(t: Table): Table
  {
    match Registry(t.Name)
    case None => t
    case Some(r) => ApplyRule(r, t)
  }

  /** The names the registry holds an override for. */
  const RegisteredNames: set<string> := {
    "rhnchecksumtype", "rhnchecksum", "rhnpackagearch", "rhnchannelarch", "rhnpackagename",
    "rhnpackagenevra", "rhnpackagesource", "rhnpackagekey", "rhnpackageextratag", "rhnpackageevr",
    "rhnpackage", "rhnpackagechangelogdata", "rhnpackagechangelogrec", "rhnpackagecapability",
    "rhnconfigfiletype", "rhnconfigfile", "rhnconfigcontent", "suseimageinfo", "suseimageinfochannel",
    "suseimageprofile", "susekiwiprofile", "susedockerfileprofile", "rhnerrata", "susesaltpillar",
    "suseimagefile"}

  /** Builds the reference list of `suseimageprofile`: a copy of `refs` in
      which every reference to `rhnregtoken` is replaced by one to
      `rhnactivationkey`. */
  method RetargetRegTokenReferences(refs: seq<Reference>) returns (references: seq<Reference>)
    ensures references == RetargetedReferences(refs)
  {
    references := [];
    var i := 0;
    while i < |refs|
      invariant 0 <= i <= |refs|
      invariant |references| == i
      invariant forall j :: 0 <= j < i ==>
                  references[j] == (if refs[j].TableName == "rhnregtoken" then ActivationKeyReference else refs[j])
    {
      var r := refs[i];
      if r.TableName == "rhnregtoken" {
        var ref := Reference("rhnactivationkey", map["token_id" := "reg_token_id"]);
        references := references + [ref];
      } else {
        references := references + [r];
      }
      i := i + 1;
    }
  }

  /** Applies the override registered for `table.Name`, if any, to a copy of
      the table and returns the copy. */
  method ApplyTableFilters(table: Table) returns (t: Table)
    ensures t == Filtered(table)
    ensures table.Name !in RegisteredNames ==> t == table
  {
    t := table;
    match t.Name
    case "rhnchecksumtype" =>
      t := t.(PKSequence := "rhn_checksum_id_seq");
    case "rhnchecksum" =>
      t := t.(PKSequence := "rhnchecksum_seq");
    case "rhnpackagearch" =>
      t := t.(PKSequence := "rhn_package_arch_id_seq");
    case "rhnchannelarch" =>
      t := t.(PKSequence := "rhn_channel_arch_id_seq");
    case "rhnpackagename" =>
      t := t.(PKSequence := "RHN_PKG_NAME_SEQ");
    case "rhnpackagenevra" =>
      t := t.(PKSequence := "rhn_pkgnevra_id_seq");
    case "rhnpackagesource" =>
      t := t.(PKSequence := "rhn_package_source_id_seq");
    case "rhnpackagekey" =>
      t := t.(PKSequence := "rhn_pkey_id_seq");
    case "rhnpackageextratag" =>
      var virtualIndexColumns := ["package_id", "key_id"];
      t := t.(UniqueIndexes := t.UniqueIndexes[VirtualIndexName := UniqueIndex(VirtualIndexName, virtualIndexColumns)]);
      t := t.(MainUniqueIndexName := VirtualIndexName);
    case "rhnpackageevr" =>
      t := t.(PKSequence := "rhn_pkg_evr_seq");
      t := t.(UnexportColumns := {"type"});
      var vre := IndexOrZero(t.UniqueIndexes, "rhn_pe_v_r_e_uq").Columns + ["type"];
      t := t.(UniqueIndexes := t.UniqueIndexes["rhn_pe_v_r_e_uq" := UniqueIndex("rhn_pe_v_r_e_uq", vre)]);
      var vr := IndexOrZero(t.UniqueIndexes, "rhn_pe_v_r_uq").Columns + ["type"];
      t := t.(UniqueIndexes := t.UniqueIndexes["rhn_pe_v_r_uq" := UniqueIndex("rhn_pe_v_r_uq", vr)]);
    case "rhnpackage" =>
      t := t.(PKSequence := "RHN_PACKAGE_ID_SEQ");
      var virtualIndexColumns := ["name_id", "evr_id", "package_arch_id", "checksum_id", "org_id"];
      t := t.(UniqueIndexes := t.UniqueIndexes[VirtualIndexName := UniqueIndex(VirtualIndexName, virtualIndexColumns)]);
      t := t.(MainUniqueIndexName := VirtualIndexName);
    case "rhnpackagechangelogdata" =>
      t := t.(PKSequence := "rhn_pkg_cld_id_seq");
      var virtualIndexColumns := ["name", "text", "time"];
      t := t.(UniqueIndexes := t.UniqueIndexes[VirtualIndexName := UniqueIndex(VirtualIndexName, virtualIndexColumns)]);
      t := t.(MainUniqueIndexName := VirtualIndexName);
    case "rhnpackagechangelogrec" =>
      t := t.(PKSequence := "rhn_pkg_cl_id_seq");
    case "rhnpackagecapability" =>
      t := t.(PKSequence := "RHN_PKG_CAPABILITY_ID_SEQ");
      var virtualIndexColumns := ["name", "version"];
      t := t.(UniqueIndexes := t.UniqueIndexes[VirtualIndexName := UniqueIndex(VirtualIndexName, virtualIndexColumns)]);
      t := t.(MainUniqueIndexName := VirtualIndexName);
    case "rhnconfigfiletype" =>
      var virtualIndexColumns := ["label"];
      t := t.(UniqueIndexes := t.UniqueIndexes[VirtualIndexName := UniqueIndex(VirtualIndexName, virtualIndexColumns)]);
      t := t.(MainUniqueIndexName := VirtualIndexName);
    case "rhnconfigfile" =>
      t := t.(UnexportColumns := {"latest_config_revision_id"});
    case "rhnconfigcontent" =>
      var virtualIndexColumns := ["contents", "file_size", "checksum_id", "is_binary", "delim_start", "delim_end", "created"];
      t := t.(UniqueIndexes := t.UniqueIndexes[VirtualIndexName := UniqueIndex(VirtualIndexName, virtualIndexColumns)]);
      t := t.(MainUniqueIndexName := VirtualIndexName);
    case "suseimageinfo" =>
      t := t.(UnexportColumns := {"build_action_id", "inspect_action_id", "build_server_id", "log"});
      var virtualIndexColumns := ["name", "version", "image_type", "image_arch_id", "org_id", "curr_revision_num"];
      t := t.(UniqueIndexes := t.UniqueIndexes[VirtualIndexName := UniqueIndex(VirtualIndexName, virtualIndexColumns)]);
      t := t.(MainUniqueIndexName := VirtualIndexName);
    case "suseimageinfochannel" =>
      var virtualIndexColumns := ["channel_id", "image_info_id"];
      t := t.(UniqueIndexes := t.UniqueIndexes[VirtualIndexName := UniqueIndex(VirtualIndexName, virtualIndexColumns)]);
      t := t.(MainUniqueIndexName := VirtualIndexName);
    case "suseimageprofile" =>
      t := t.(PKSequence := "suse_imgprof_prid_seq");
      var references := RetargetRegTokenReferences(t.References);
      t := t.(References := references);
    case "susekiwiprofile" =>
      var virtualIndexColumns := ["profile_id"];
      t := t.(UniqueIndexes := t.UniqueIndexes[VirtualIndexName := UniqueIndex(VirtualIndexName, virtualIndexColumns)]);
      t := t.(MainUniqueIndexName := VirtualIndexName);
    case "susedockerfileprofile" =>
      var virtualIndexColumns := ["profile_id", "path"];
      t := t.(UniqueIndexes := t.UniqueIndexes[VirtualIndexName := UniqueIndex(VirtualIndexName, virtualIndexColumns)]);
      t := t.(MainUniqueIndexName := VirtualIndexName);
    case "rhnerrata" =>
      t := t.(MainUniqueIndexName := "rhn_errata_adv_org_uq");
      t := t.(RowModCallback := ErrataSeverityReset);
    case "susesaltpillar" =>
      t := t.(RowModCallback := ImagePillarRewrite);
      var virtualIndexColumns := ["server_id", "group_id", "org_id", "category"];
      t := t.(UniqueIndexes := t.UniqueIndexes[VirtualIndexName := UniqueIndex(VirtualIndexName, virtualIndexColumns)]);
      t := t.(MainUniqueIndexName := VirtualIndexName);
    case "suseimagefile" =>
      t := t.(PKSequence := "suse_image_file_id_seq");
      var virtualIndexColumns := ["image_info_id", "file"];
      t := t.(UniqueIndexes := t.UniqueIndexes[VirtualIndexName := UniqueIndex(VirtualIndexName, virtualIndexColumns)]);
      t := t.(MainUniqueIndexName := VirtualIndexName);
    case _ =>
  }

  /** The tables whose only override is a corrected primary-key sequence. */
  const SequenceOnly: map<string, string> := map[
    "rhnchecksumtype" := "rhn_checksum_id_seq",
    "rhnchecksum" := "rhnchecksum_seq",
    "rhnpackagearch" := "rhn_package_arch_id_seq",
    "rhnchannelarch" := "rhn_channel_arch_id_seq",
    "rhnpackagename" := "RHN_PKG_NAME_SEQ",
    "rhnpackagenevra" := "rhn_pkgnevra_id_seq",
    "rhnpackagesource" := "rhn_package_source_id_seq",
    "rhnpackagekey" := "rhn_pkey_id_seq",
    "rhnpackagechangelogrec" := "rhn_pkg_cl_id_seq"]

  /** The tables that get a virtual identity key, with its columns. */
  const VirtualIndexColumns: map<string, seq<string>> := map[
    "rhnpackageextratag" := ["package_id", "key_id"],
    "rhnpackage" := ["name_id", "evr_id", "package_arch_id", "checksum_id", "org_id"],
    "rhnpackagechangelogdata" := ["name", "text", "time"],
    "rhnpackagecapability" := ["name", "version"],
    "rhnconfigfiletype" := ["label"],
    "rhnconfigcontent" := ["contents", "file_size", "checksum_id", "is_binary", "delim_start", "delim_end", "created"],
    "suseimageinfo" := ["name", "version", "image_type", "image_arch_id", "org_id", "curr_revision_num"],
    "suseimageinfochannel" := ["channel_id", "image_info_id"],
    "susekiwiprofile" := ["profile_id"],
    "susedockerfileprofile" := ["profile_id", "path"],
    "susesaltpillar" := ["server_id", "group_id", "org_id", "category"],
    "suseimagefile" := ["image_info_id", "file"]]

  /** The two `rhnpackageevr` indexes that get the `type` column. */
  const EvrIndexes: set<string> := {"rhn_pe_v_r_e_uq", "rhn_pe_v_r_uq"}

  /** A table has an override exactly when its name is registered. */
  lemma RegisteredExactly(name: string)
    ensures Registry(name).Some? <==> name in RegisteredNames
  {
  }

  /** The sequence-only overrides change `PKSequence` to their literal and
      nothing else. */
  lemma SequenceOnlyOverride(t: Table)
    requires t.Name in SequenceOnly
    ensures Filtered(t) == t.(PKSequence := SequenceOnly[t.Name])
  {
    SequenceOnlyRule(t.Name);
  }

  /** The registry entry of a sequence-only table sets just the sequence. */
  lemma SequenceOnlyRule(name: string)
    requires name in SequenceOnly
    ensures Registry(name) == Some(Rule(pkSequence := Some(SequenceOnly[name])))
  {
  }

  /** The sequences set by tables that also get a virtual identity key. */
  const VirtualIndexSequence: map<string, string> := map[
    "rhnpackage" := "RHN_PACKAGE_ID_SEQ",
    "rhnpackagechangelogdata" := "rhn_pkg_cld_id_seq",
    "rhnpackagecapability" := "RHN_PKG_CAPABILITY_ID_SEQ",
    "suseimagefile" := "suse_image_file_id_seq"]

  /** The columns `suseimageinfo` leaves out of the export. */
  const ImageInfoUnexported: set<string> := {"build_action_id", "inspect_action_id", "build_server_id", "log"}

  /** A virtual identity key is written under the reserved name, replacing
      any entry already there, leaving every other index as it was, and
      becomes the main unique index. The references are kept; the sequence,
      the unexported columns and the callback are kept too, except by the
      tables that set them beside the key. */
  lemma VirtualIndexOverride(t: Table)
    requires t.Name in VirtualIndexColumns
    ensures var f := Filtered(t);
            && f.Name == t.Name
            && f.References == t.References
            && f.MainUniqueIndexName == VirtualIndexName
            && f.UniqueIndexes == t.UniqueIndexes[VirtualIndexName := UniqueIndex(VirtualIndexName, VirtualIndexColumns[t.Name])]
            && f.UniqueIndexes.Keys == t.UniqueIndexes.Keys + {VirtualIndexName}
            && (forall k :: k in t.UniqueIndexes && k != VirtualIndexName ==> f.UniqueIndexes[k] == t.UniqueIndexes[k])
            && (t.Name !in VirtualIndexSequence ==> f.PKSequence == t.PKSequence)
            && (t.Name != "suseimageinfo" ==> f.UnexportColumns == t.UnexportColumns)
            && (t.Name != "susesaltpillar" ==> f.RowModCallback == t.RowModCallback)
  {
    VirtualIndexRule(t.Name);
    VirtualIndexAppendsNothing(t.Name);
    VirtualIndexSequenceOnlyFour(t.Name);
    VirtualIndexUnexportOnlyImageInfo(t.Name);
    VirtualIndexCallbackOnlySaltPillar(t.Name);
  }

  /** `rhnpackage`, `rhnpackagechangelogdata`, `rhnpackagecapability` and
      `suseimagefile` also set their sequence. */
  lemma VirtualIndexSequenceOverride(t: Table)
    requires t.Name in VirtualIndexSequence
    ensures Filtered(t).PKSequence == VirtualIndexSequence[t.Name]
  {
    VirtualIndexSequenceRule(t.Name);
  }

  /** `suseimageinfo` also replaces its unexported columns by the four that
      concern only the source server. */
  lemma ImageInfoOverride(t: Table)
    requires t.Name == "suseimageinfo"
    ensures Filtered(t).UnexportColumns == ImageInfoUnexported
  {
  }

  /** The registry entry of every table with a virtual key sets that key. */
  lemma VirtualIndexRule(name: string)
    requires name in VirtualIndexColumns
    ensures Registry(name).Some?
    ensures Registry(name).value.virtualIndex == Some(VirtualIndexColumns[name])
  {
  }

  /** A rule that sets a virtual key appends no column, retargets nothing
      and pins no other main index. */
  lemma VirtualIndexAppendsNothing(name: string)
    requires Registry(name).Some? && Registry(name).value.virtualIndex.Some?
    ensures Registry(name).value.typeColumnIndexes == []
    ensures !Registry(name).value.retargetRegToken
    ensures Registry(name).value.mainIndex.None?
  {
  }

  /** Of the tables with a virtual key, only four also set a sequence. */
  lemma VirtualIndexSequenceOnlyFour(name: string)
    requires Registry(name).Some? && Registry(name).value.virtualIndex.Some?
    ensures Registry(name).value.pkSequence.Some? ==> name in VirtualIndexSequence
  {
  }

  /** Of the tables with a virtual key, only `suseimageinfo` also sets
      unexported columns. */
  lemma VirtualIndexUnexportOnlyImageInfo(name: string)
    requires Registry(name).Some? && Registry(name).value.virtualIndex.Some?
    ensures Registry(name).value.unexport.Some? ==> name == "suseimageinfo"
  {
  }

  /** Of the tables with a virtual key, only `susesaltpillar` also installs
      a callback. */
  lemma VirtualIndexCallbackOnlySaltPillar(name: string)
    requires Registry(name).Some? && Registry(name).value.virtualIndex.Some?
    ensures Registry(name).value.callback.Some? ==> name == "susesaltpillar"
  {
  }

  /** The sequence each of the four tables sets beside its virtual key. */
  lemma VirtualIndexSequenceRule(name: string)
    requires name in VirtualIndexSequence
    ensures Registry(name).Some? && Registry(name).value.pkSequence == Some(VirtualIndexSequence[name])
  {
  }

  /** `rhnconfigfile`: `latest_config_revision_id` becomes the only
      unexported column, and nothing else changes. */
  lemma ConfigFileOverride(t: Table)
    requires t.Name == "rhnconfigfile"
    ensures Filtered(t) == t.(UnexportColumns := {"latest_config_revision_id"})
  {
  }

  /** `rhnpackageevr`: the sequence is set, `type` becomes the only
      unexported column, and both version indexes get `type` appended to
      their previous column list (a missing index becomes just `type`). */
  lemma PackageEvrOverride(t: Table)
    requires t.Name == "rhnpackageevr"
    ensures var f := Filtered(t);
            && f.PKSequence == "rhn_pkg_evr_seq"
            && f.UnexportColumns == {"type"}
            && f.UniqueIndexes.Keys == t.UniqueIndexes.Keys + EvrIndexes
            && (forall n :: n in EvrIndexes ==>
                  var before := IndexOrZero(t.UniqueIndexes, n).Columns;
                  var after := f.UniqueIndexes[n].Columns;
                  && f.UniqueIndexes[n].Name == n
                  && |after| == |before| + 1
                  && after[..|before|] == before
                  && after[|before|] == "type"
                  && (n !in t.UniqueIndexes ==> after == ["type"]))
            && (forall k :: k in t.UniqueIndexes && k !in EvrIndexes ==> f.UniqueIndexes[k] == t.UniqueIndexes[k])
            && f == t.(PKSequence := f.PKSequence, UnexportColumns := f.UnexportColumns, UniqueIndexes := f.UniqueIndexes)
  {
    PackageEvrFiltered(t);
    assert forall n :: n in EvrIndexes <==> n in ["rhn_pe_v_r_e_uq", "rhn_pe_v_r_uq"];
  }

  /** The `rhnpackageevr` override sets the sequence and the unexported
      columns and appends `type` to the two version indexes. */
  lemma PackageEvrFiltered(t: Table)
    requires t.Name == "rhnpackageevr"
    ensures Filtered(t) == t.(PKSequence := "rhn_pkg_evr_seq", UnexportColumns := {TypeColumn},
                              UniqueIndexes := AppendTypeColumn(t.UniqueIndexes, ["rhn_pe_v_r_e_uq", "rhn_pe_v_r_uq"]))
  {
    var r := Rule(pkSequence := Some("rhn_pkg_evr_seq"), unexport := Some({TypeColumn}),
                  typeColumnIndexes := ["rhn_pe_v_r_e_uq", "rhn_pe_v_r_uq"]);
    assert Registry(t.Name) == Some(r);
  }

  /** Appending is not idempotent: a second application makes the
      `rhn_pe_v_r_uq` column list one longer again. */
  lemma PackageEvrNotIdempotent(t: Table)
    requires t.Name == "rhnpackageevr"
    ensures Filtered(Filtered(t)) != Filtered(t)
  {
    var f := Filtered(t);
    PackageEvrOverride(t);
    PackageEvrOverride(f);
    assert |Filtered(f).UniqueIndexes["rhn_pe_v_r_uq"].Columns| == |f.UniqueIndexes["rhn_pe_v_r_uq"].Columns| + 1;
  }

  /** `suseimageprofile`: the references keep their length and order; every
      reference to `rhnregtoken` becomes the `rhnactivationkey` reference,
      every other one is kept, and none to `rhnregtoken` remains. */
  lemma ImageProfileOverride(t: Table)
    requires t.Name == "suseimageprofile"
    ensures var f := Filtered(t);
            && f == t.(PKSequence := "suse_imgprof_prid_seq", References := f.References)
            && |f.References| == |t.References|
            && (forall i :: 0 <= i < |t.References| && t.References[i].TableName == "rhnregtoken" ==>
                  f.References[i] == ActivationKeyReference)
            && (forall i :: 0 <= i < |t.References| && t.References[i].TableName != "rhnregtoken" ==>
                  f.References[i] == t.References[i])
            && (forall i :: 0 <= i < |f.References| ==> f.References[i].TableName != "rhnregtoken")
  {
  }

  /** `rhnerrata`: the main unique index is pinned to one of the two real
      candidates, the indexes themselves are left alone, and the severity
      reset callback is installed. */
  lemma ErrataOverride(t: Table)
    requires t.Name == "rhnerrata"
    ensures var f := Filtered(t);
            && f.MainUniqueIndexName == "rhn_errata_adv_org_uq"
            && f.UniqueIndexes == t.UniqueIndexes
            && f.RowModCallback == ErrataSeverityReset
            && f == t.(MainUniqueIndexName := f.MainUniqueIndexName, RowModCallback := f.RowModCallback)
  {
  }

  /** `susesaltpillar`: the pillar rewrite callback is installed beside a
      virtual identity key. */
  lemma SaltPillarOverride(t: Table)
    requires t.Name == "susesaltpillar"
    ensures var f := Filtered(t);
            && f.RowModCallback == ImagePillarRewrite
            && f == t.(RowModCallback := f.RowModCallback, MainUniqueIndexName := VirtualIndexName,
                       UniqueIndexes := t.UniqueIndexes[VirtualIndexName := UniqueIndex(VirtualIndexName, VirtualIndexColumns[t.Name])])
  {
  }

  /** Retargeting twice is retargeting once: the replacement reference does
      not point at `rhnregtoken`. */
  lemma RetargetIdempotent(refs: seq<Reference>)
    ensures RetargetedReferences(RetargetedReferences(refs)) == RetargetedReferences(refs)
  {
  }

  /** The number of references to table `name`. */
  function CountReferencesTo(refs: seq<Reference>, name: string): nat
    decreases |refs|
  {
    if refs == [] then 0
    else (if refs[0].TableName == name then 1 else 0) + CountReferencesTo(refs[1..], name)
  }

  /** Retargeting removes every edge to `rhnregtoken` and adds one edge to
      `rhnactivationkey` for each: a table with exactly one `rhnregtoken`
      edge and none to `rhnactivationkey` ends with exactly one
      `rhnactivationkey` edge. */
  lemma {:induction false} RetargetCounts(refs: seq<Reference>)
    ensures CountReferencesTo(RetargetedReferences(refs), "rhnregtoken") == 0
    ensures CountReferencesTo(RetargetedReferences(refs), "rhnactivationkey") ==
              CountReferencesTo(refs, "rhnactivationkey") + CountReferencesTo(refs, "rhnregtoken")
    decreases |refs|
  {
    if refs != [] {
      var out := RetargetedReferences(refs);
      assert out[1..] == RetargetedReferences(refs[1..]);
      RetargetCounts(refs[1..]);
    }
  }

  /** Applying a rule that appends no column twice is applying it once. */
  lemma ApplyRuleIdempotent(r: Rule, t: Table)
    requires r.typeColumnIndexes == []
    ensures ApplyRule(r, ApplyRule(r, t)) == ApplyRule(r, t)
  {
    RetargetIdempotent(t.References);
  }

  /** Every override except `rhnpackageevr` re-sets its fields rather than
      accumulating, so applying the filters twice equals applying them once. */
  lemma FilteredIdempotent(t: Table)
    requires t.Name != "rhnpackageevr"
    ensures Filtered(Filtered(t)) == Filtered(t)
  {
    if Registry(t.Name).Some? {
      ApplyRuleIdempotent(Registry(t.Name).value, t);
    }
  }

  /** The name, and every index other than the virtual key and the
      `rhnpackageevr` indexes, are never changed; no index is removed. */
  lemma FilteredKeepsIndexes(t: Table)
    ensures var f := Filtered(t);
            && f.Name == t.Name
            && t.UniqueIndexes.Keys <= f.UniqueIndexes.Keys
            && forall k :: k in t.UniqueIndexes && k != VirtualIndexName && k !in EvrIndexes ==>
                 f.UniqueIndexes[k] == t.UniqueIndexes[k]
  {
    if Registry(t.Name).Some? {
      RegistryAppendsOnlyToEvr(t.Name);
      ApplyRuleKeepsIndexes(Registry(t.Name).value, t);
    }
  }

  /** Only the `rhnpackageevr` indexes ever get a column appended. */
  lemma RegistryAppendsOnlyToEvr(name: string)
    requires Registry(name).Some?
    ensures forall n :: n in Registry(name).value.typeColumnIndexes ==> n in EvrIndexes
  {
  }

  /** A rule keeps the name and every index, and changes no index other
      than the virtual key and those it appends to. */
  lemma ApplyRuleKeepsIndexes(r: Rule, t: Table)
    requires Distinct(r.typeColumnIndexes)
    ensures var f := ApplyRule(r, t);
            && f.Name == t.Name
            && t.UniqueIndexes.Keys <= f.UniqueIndexes.Keys
            && forall k :: k in t.UniqueIndexes && k != VirtualIndexName && k !in r.typeColumnIndexes ==>
                 f.UniqueIndexes[k] == t.UniqueIndexes[k]
  {
  }

  /** The main unique index is either unset (`""`) or names an existing
      index; the filters keep this so, provided the index `rhnerrata` is
      pinned to exists. */
  lemma MainIndexStaysValid(t: Table)
    requires t.MainUniqueIndexName == "" || t.MainUniqueIndexName in t.UniqueIndexes
    requires t.Name == "rhnerrata" ==> "rhn_errata_adv_org_uq" in t.UniqueIndexes
    ensures Filtered(t).MainUniqueIndexName == "" || Filtered(t).MainUniqueIndexName in Filtered(t).UniqueIndexes
  {
    if Registry(t.Name).Some? {
      RegistryPinsOnlyErrata(t.Name);
      ApplyRuleKeepsIndexes(Registry(t.Name).value, t);
    }
  }

  /** Only `rhnerrata` pins its main index to a named real index. */
  lemma RegistryPinsOnlyErrata(name: string)
    requires Registry(name).Some?
    ensures Registry(name).value.mainIndex.Some? ==>
              name == "rhnerrata" && Registry(name).value.mainIndex.value == "rhn_errata_adv_org_uq"
  {
  }
}
