# Table overrides of the inter-server-sync schema reader

This project models, in Dafny, the per-table overrides that the schema
reader of inter-server-sync applies to introspected table metadata
(`schemareader/tableFilters.go`). Schema introspection alone does not yield
what the exporter needs for every table. For some tables the overrides
correct the primary-key sequence name. Others get a *virtual* unique index
(an identity key with no backing database constraint, stored under the
reserved name `virtual_main_unique_index`) that becomes the table's main
unique index. `rhnpackageevr` gets an extra `type` column in two indexes,
and a few tables get columns that are not exported. References to
`rhnregtoken` are retargeted to `rhnactivationkey`. Two row callbacks are
installed:

- `rhnerrata` resets `severity_id` to the column's initial value;
- `susesaltpillar` rewrites the image URLs inside an image pillar to the
  placeholder host `{SERVER_FQDN}`.

Files:

- `schema.dfy` (module `Schema`): the data model.
  - The `Table` record, with `UniqueIndex`, `Reference` and the installed
    `RowModCallback`.
  - The exported row, a sequence of `RowData` columns.
  - The constant `VirtualIndexName`.
- `table_filters.dfy` (module `TableFilters`): the override dispatch.
  - `ApplyTableFilters` is the switch on the table name, one case per
    table, each case assigning fields of the table copy it received.
  - `Registry` states the same overrides as data, one `Rule` per table
    name, and `Filtered` applies any rule. The method is proved equal to
    `Filtered`.
  - Every property of the overrides is a lemma about `Filtered`.
- `pillar_url.dfy` (module `PillarUrl`): the URL rewrite.
  - `https://[^/]+/os-images/` is replaced by
    `https://{SERVER_FQDN}/os-images/`, leftmost match first and without
    overlap.
  - The expression is fixed, so a hand-written scan (`MatchLength`)
    replaces the regular-expression engine. `IsMatch` states the language
    of the expression, and the scan is proved to find exactly its matches.
  - The main result, `OnlyPlaceholderUrlsRemain`, is that the rewrite is
    exhaustive: every match left in the output is the placeholder URL.
- `row_callbacks.dfy` (module `RowCallbacks`): the two row callbacks.
  - Each works in place on an `array<RowData>`, as the source mutates the
    row slice it is handed.
  - Each is proved against a function on the row's contents.

Two properties one might expect of the overrides hold only in part:

- Applying the overrides twice is not the same as applying them once: the
  `rhnpackageevr` case appends `type` to the column lists of two indexes,
  and a second application appends it again (`PackageEvrNotIdempotent`).
  For every other table a second application changes nothing
  (`FilteredIdempotent`).
- Retargeting rewrites every `rhnregtoken` edge and keeps all others, so
  the `suseimageprofile` references hold exactly one `rhnactivationkey`
  edge only when the input had one `rhnregtoken` edge and none to
  `rhnactivationkey` (`RetargetCounts` gives the counts in general).

## Model

| member | source | states |
|---|---|---|
| TableFilters.ApplyTableFilters | schemareader/tableFilters.go:15-166 | The switch gives the same table as the registry-driven reference `Filtered`; a table whose name has no case is returned unchanged |
| TableFilters.RegisteredExactly | schemareader/tableFilters.go:16-164 | A table has an override exactly when its name is one of the 25 names the switch lists |
| TableFilters.SequenceOnlyOverride | schemareader/tableFilters.go:17-33 | The nine sequence-only cases (including `rhnpackagechangelogrec`) change `PKSequence` to their literal and nothing else |
| TableFilters.VirtualIndexOverride | schemareader/tableFilters.go:34-37 | For each of the twelve tables with a virtual key: the index map is the old one with the key stored under `virtual_main_unique_index` with its listed columns, overwriting any previous entry; the key becomes the main unique index; the name and the references are kept; the sequence is kept except by the four tables that set one, the unexported columns except by `suseimageinfo`, the callback except by `susesaltpillar` |
| TableFilters.VirtualIndexSequenceOverride | schemareader/tableFilters.go:48-69 | `rhnpackage`, `rhnpackagechangelogdata` and `rhnpackagecapability` (and `suseimagefile`, :159-160) set their sequence to the listed literal beside the virtual key |
| TableFilters.ImageInfoOverride | schemareader/tableFilters.go:82-89 | `suseimageinfo`: the unexported columns become exactly `build_action_id`, `inspect_action_id`, `build_server_id` and `log` |
| TableFilters.ConfigFileOverride | schemareader/tableFilters.go:74-77 | `rhnconfigfile`: `latest_config_revision_id` becomes the only unexported column and nothing else changes |
| TableFilters.PackageEvrOverride | schemareader/tableFilters.go:38-47 | `rhnpackageevr`: the sequence is set; `type` becomes the only unexported column; both version indexes get `type` appended to their previous columns (a missing index, read as Go's zero value, becomes just `type`); every other index and field is unchanged |
| TableFilters.PackageEvrNotIdempotent | schemareader/tableFilters.go:44-47 | Applying the `rhnpackageevr` override twice differs from applying it once |
| TableFilters.AppendTypeColumn | schemareader/tableFilters.go:44-47 | For distinct names: each named index becomes that name with its previous columns (none when it was missing) followed by `type`; the key set gains the names; every other index is unchanged |
| TableFilters.ImageProfileOverride | schemareader/tableFilters.go:99-115 | `suseimageprofile`: the sequence is set; the references keep length and order; each `rhnregtoken` reference becomes `rhnactivationkey` with `token_id -> reg_token_id`; every other reference is kept; no `rhnregtoken` reference remains |
| TableFilters.RetargetRegTokenReferences | schemareader/tableFilters.go:102-115 | The loop yields the retargeted list: same length, and each element is the input element at that position with `rhnregtoken` references replaced |
| TableFilters.RetargetCounts | schemareader/tableFilters.go:102-115 | After retargeting there are no `rhnregtoken` edges, and the `rhnactivationkey` edges number the old ones plus the old `rhnregtoken` edges |
| TableFilters.RetargetIdempotent | schemareader/tableFilters.go:103-114 | Retargeting an already retargeted list changes nothing |
| TableFilters.ErrataOverride | schemareader/tableFilters.go:124-135 | `rhnerrata`: the main unique index is pinned to `rhn_errata_adv_org_uq`; the indexes are untouched; the severity-reset callback is installed; nothing else changes |
| TableFilters.SaltPillarOverride | schemareader/tableFilters.go:136-158 | `susesaltpillar`: the pillar-rewrite callback is installed beside the virtual key on `server_id, group_id, org_id, category`; nothing else changes |
| TableFilters.ApplyRuleIdempotent | schemareader/tableFilters.go:34-37 | An override that overwrites fixed entries and appends no column gives the same table when applied twice |
| TableFilters.FilteredIdempotent | schemareader/tableFilters.go:15-166 | For every table other than `rhnpackageevr`, applying the overrides twice equals applying them once |
| TableFilters.FilteredKeepsIndexes | schemareader/tableFilters.go:15-166 | The overrides never rename the table or remove an index, and they change no index other than the virtual key and the two `rhnpackageevr` indexes |
| TableFilters.MainIndexStaysValid | schemareader/tableFilters.go:15-166 | The invariant "the main unique index is unset or names an existing index" holds after the overrides whenever it held before (for `rhnerrata`, provided the pinned index exists) |
| RowCallbacks.ResetSeverity | schemareader/tableFilters.go:128-135 | The callback leaves the row equal to `SeverityReset` of the row it was handed |
| RowCallbacks.SeverityResetColumns | schemareader/tableFilters.go:129-133 | The reset keeps the columns and their order; each `severity_id` column holds its initial value; every other column is unchanged |
| RowCallbacks.SeverityResetForgetsSeverity | schemareader/tableFilters.go:129-133 | Rows that differ only in their `severity_id` values (with the same initial values) reset to the same row |
| RowCallbacks.SeverityResetIdempotent | schemareader/tableFilters.go:129-133 | Resetting twice equals resetting once |
| RowCallbacks.PillarColumn | schemareader/tableFilters.go:139-148 | The column the loop selects is the last `pillar` column, or 0 when there is none |
| RowCallbacks.RewriteImagePillar | schemareader/tableFilters.go:137-155 | A row without a `category` starting with "Image" is unchanged. Otherwise only the selected pillar column changes: its bytes are rewritten, and afterwards every URL match in them is the placeholder URL |
| PillarUrl.Rewrite | schemareader/tableFilters.go:150-152 | The `ReplaceAll`: copies bytes, replacing each leftmost, non-overlapping match with the placeholder URL. Its own contract: the output is empty exactly when the input is, and input without an `h` byte comes back unchanged. The lemmas below state the rest |
| PillarUrl.SlashFrom | schemareader/tableFilters.go:150 | The scan for `[^/]+`: it returns the position of the first slash at or after the start, and none when there is no slash |
| PillarUrl.MatchLength | schemareader/tableFilters.go:150 | The scan returns a length exactly when `https://[^/]+/os-images/` matches a prefix of that length, and none when no prefix matches |
| PillarUrl.MatchEndsAtFirstSlash | schemareader/tableFilters.go:150 | A match's host runs up to the first slash after the scheme |
| PillarUrl.MatchUnique | schemareader/tableFilters.go:150 | At most one match starts at any position |
| PillarUrl.UrlMatches | schemareader/tableFilters.go:150 | `https://` + a non-empty host without a slash + `/os-images/` is a match that covers exactly that URL |
| PillarUrl.ReplacementMatches | schemareader/tableFilters.go:151 | The replacement `https://{SERVER_FQDN}/os-images/` is itself a match covering exactly itself |
| PillarUrl.FirstMatch | schemareader/tableFilters.go:152 | The position returned is the leftmost match start, or the length when there is no match |
| PillarUrl.CopiesUpToMatch | schemareader/tableFilters.go:152 | Bytes before the first match are copied unchanged and in order |
| PillarUrl.NoMatchUnchanged | schemareader/tableFilters.go:152 | Input without a match is returned unchanged |
| PillarUrl.RewriteAtMatch | schemareader/tableFilters.go:152 | A match at the start becomes the replacement, and the scan resumes right after the match |
| PillarUrl.RewriteAtFirstMatch | schemareader/tableFilters.go:152 | The output is the bytes before the leftmost match, then the replacement, then the rewrite of what follows the match |
| PillarUrl.RewritesUrl | schemareader/tableFilters.go:150-152 | A URL with any host, preceded by bytes without a match, is rewritten to the placeholder host and the rest is rewritten independently |
| PillarUrl.RewritesExampleUrl | schemareader/tableFilters.go:150-152 | `https://old-host.example/os-images/foo.raw` becomes `https://{SERVER_FQDN}/os-images/foo.raw` |
| PillarUrl.OnlyPlaceholderUrlsRemain | schemareader/tableFilters.go:150-152 | After the rewrite, every match anywhere in the output is exactly the placeholder URL |
| PillarUrl.PlaceholderUrlsFixed | schemareader/tableFilters.go:152 | Bytes whose only matches are the placeholder URL are left unchanged |
| PillarUrl.RewriteIdempotent | schemareader/tableFilters.go:150-152 | Rewriting twice equals rewriting once |

## Left out

- Logging: the trace message at `schemareader/tableFilters.go:143` has no effect on the data and is not modelled.
- Regular expressions: Go's `regexp` engine is not modelled. The fixed expression `https://[^/]+/os-images/` is stated as the predicate `IsMatch` and scanned by hand. `ReplaceAll` expands `$` in its replacement, which is irrelevant here because the replacement holds no `$`.
- `GetInitialValue`: the row layer that computes a column's initial value is not part of this model. The value is the `InitialValue` field of `RowData`.
- RowCallbacks.SeverityResetForgetsSeverity: what the reset exports depends on what `GetInitialValue` returns, which this model does not know. The lemma shows that the current `severity_id` value is discarded in favour of the initial value. It does not show that the source's severity is withheld: if the initial value is the value first read from the source row, the reset exports that value.
- RowCallbacks.RewriteImagePillar: the source panics on a failed type assertion: a `category` value that is not a string, or a selected pillar value that is not a byte slice. The model makes these a precondition (`PillarRowWellTyped`) instead of modelling the panic.
- Callbacks as closures: the installed callbacks are a tag (`RowModCallback`), not function values. The callbacks' unused `table` parameter and their return of the same slice are not modelled, because the methods work in place.
- Map aliasing: in Go, `Table` is copied but its `UniqueIndexes` map is shared. The overrides therefore also change the caller's map. Writing to a nil map would panic. The model treats `UniqueIndexes` as a value owned by the table, so it does not capture the shared update or the panic.
- `UnexportColumns`: the source's `map[string]bool` with only `true` values is a `set<string>`.
- Table fields the overrides never touch (columns, primary key, and the other introspected metadata) are not part of this model's `Table`.
- Invoking a callback for every exported row, and serialising the row, belong to the export layer, which is not part of this model.
- TableFilters.FilteredIdempotent: excludes `rhnpackageevr`, because that override appends a column each time it is applied (see `PackageEvrNotIdempotent`).
