# rootspersona family-tree pipeline, modelled in Dafny

This project models the SVG family-tree generator of the rootspersona
WordPress plugin (class `Rootspersona_SVG_Generator`). It also models the
small pure helpers of the plugin's main file that sit around it. It proves
properties of both.

The generator runs five stages, and each one has a module here:

- **Traversal** (`Traversal`, `SvgGenerator.Generator.BuildTreeIteratively`).
  A LIFO stack of `(id, level)` items is walked from the start person.
  - A `visited` set, an insertion-ordered node list and an edge list are kept.
  - The walk stops when the stack is empty or `max_nodes` nodes are stored.
  - Items deeper than `max_depth` are skipped.
  - Spouses keep the level, children get `level + 1` and parents `level - 1`.
  - The person and family records are finite maps (`Records.Db`). The
    generator's per-instance memo caches are fields of the class.
- **Rank pass** (`Ranking`, `Generator.AssignRanks`). A breadth-first queue
  from the first stored node gives every reachable id a signed rank:
  - `+1` along a parent-child edge and `+0` along a spouse edge when the id is
    the edge's `from`;
  - `-1` when the id is its `to`.
- **Row layout** (`Layout`, `Generator.GroupByRank` / `PlaceCards`).
  - Nodes are grouped by rank, and the rows are sorted by rank.
  - Each row is centred in a view box `400 + 220·maxRow` wide and
    `200 + 160·rows` high.
- **Emission** (`Render`, `Generator.DrawRows`). The SVG is an abstract
  document, not XML text. It holds three avatar symbols, one card per
  placed node (a link-wrapped card when a permalink is present), and one
  line per edge whose two endpoints are placed.
- **Cache** (`TransientCache`, `Generator.GenerateSvg`). A one-day transient
  store keyed by batch, person and options sits in front of the pipeline.

The helpers from `rootspersona.php`:

- `Settings`: the options validator. It maps raw form input onto closed
  value sets and writes them into the stored option array field by field.
- `Handlers`:
  - the `datastr` `key=value&…` parser;
  - the persona shortcode's custom-page template substitution;
  - the new-person link and `sseq` flip of the edit page;
  - the person menu filter and the query variables.
- `Php` models the PHP string primitives these rely on: `trim`,
  `strtolower`, `explode`/`implode`, `str_replace`, `intval`, loose `==`
  against an integer, `esc_attr` and `html_entity_decode`, as PHP 8 and WordPress define
  them, within the limits listed under "Left out".

Ids are opaque strings. PHP truthiness of a string is "neither `""` nor
`"0"`" (`Php.Truthy`).

Where the code and its comments disagree, the model follows the code:

- Depth is checked one-sided (`level > max_depth`), so ancestors are never
  cut by depth (`Traversal.DiscoverParentsWithinDepth`, `Traversal.StepDepthCut`).
- The spouse/child loop also runs over the families in which the person is a
  child, because FAMS and FAMC families are merged.
- Every FAMC family contributes parents, not only the first one. This holds
  for the corrected parent step of the second "Findings" row
  (`Traversal.ParentLink`), which the walk and everything proved about it
  use. As written, a FAMC family with a HUSB or WIFE element stops the
  walk with a TypeError, and no parent is ever added.
- The stored nodes carry no level, so the `$levels` table is dead and only
  the breadth-first ranks place cards.

## Model

| member | source | states |
|---|---|---|
| Records.Lookup | includes/class-rootspersona-svg-generator.php:117 | a record lookup succeeds exactly when the id is in the table, and yields the stored record |
| Records.SpouseId | includes/class-rootspersona-svg-generator.php:147-153 | HUSB when its element is present (a PHP-true object whatever its text, even `""` or `0`) and not the person; otherwise WIFE under the same test; otherwise none; the result is never the person and is one of the two |
| Records.StripMarkersNoSlash | includes/class-rootspersona-svg-generator.php:166 | a name with no slash is unchanged by the surname-marker replacement |
| Records.StripMarkersSurname | includes/class-rootspersona-svg-generator.php:166 | `given␣*/X/rest` becomes `given" X"` followed by the replacement applied to `rest`; the spaces before the marker are consumed |
| Records.FormatNameSurname | includes/class-rootspersona-svg-generator.php:164-167 | a trimmed name with a `/Surname/` marker shows as given name, one space and surname (so `Jane /Doe/` shows `Jane Doe`); a name starting with the marker keeps a leading space |
| Records.FormatNamePlain | includes/class-rootspersona-svg-generator.php:164-167 | a name without slashes is only trimmed, and a missing NAME gives `""` |
| Records.EventDate | includes/class-rootspersona-svg-generator.php:169-174 | the date is trimmed, and is `""` when the event or its DATE is missing |
| Records.FamilyIds | includes/class-rootspersona-svg-generator.php:133-144 | exactly the references that name a stored family, each once |
| Records.FamilyIdsOrder | includes/class-rootspersona-svg-generator.php:133-144 | the family ids come out in the order of their first occurrence among the references |
| Records.FamiliesFor | includes/class-rootspersona-svg-generator.php:129-145 | every family returned is a stored family, and an unknown person has none |
| Records.FamiliesForMembers | includes/class-rootspersona-svg-generator.php:129-145 | for a known person, a family is returned exactly when one of the person's FAMS or FAMC references names it in the store |
| Traversal.WithDefaults | includes/class-rootspersona-svg-generator.php:17-22 | missing options default to photos on, `vertical`, 500 nodes and depth 10; given options are kept |
| Traversal.PhotoUrl | includes/class-rootspersona-svg-generator.php:176-195 | no photo when photos are disabled, otherwise the person's photo lookup |
| Traversal.SpouseLinks | includes/class-rootspersona-svg-generator.php:75-79 | a `current→spouse` spouse edge and a same-level item, exactly when the family's spouse exists, is truthy and is unvisited |
| Traversal.ChildLinks | includes/class-rootspersona-svg-generator.php:81-89 | a `current→child` parent-child edge and a `level+1` item for every unvisited child, and nothing else |
| Traversal.FamilyLinks | includes/class-rootspersona-svg-generator.php:74-90 | one edge per pushed item, each a spouse or child link to an unvisited member of one of the families |
| Traversal.ParentLink | includes/class-rootspersona-svg-generator.php:99-106 | the corrected parent step (second "Findings" row): a `parent→current` parent-child edge and a `level-1` item exactly when the parent's id text is truthy and unvisited |
| Traversal.ParentStepAsWritten | includes/class-rootspersona-svg-generator.php:99-105 | as written, a parent step never pushes a parent: it is skipped exactly for null, and every element, whatever its text, fails as an array key |
| Traversal.ParentStepAsWrittenFails | includes/class-rootspersona-svg-generator.php:99-105 | every present parent element makes the step as written fail, including every parent that the corrected step pushes |
| Traversal.ParentLinks | includes/class-rootspersona-svg-generator.php:93-109 | through the corrected parent step, every FAMC family found contributes both parents as parent links, and only ids that the records mention are pushed |
| Traversal.Discover | includes/class-rootspersona-svg-generator.php:72-109 | everything discovered for a person is a well-formed spouse, child or parent link, to unvisited ids the records mention |
| Traversal.StepShrinks | includes/class-rootspersona-svg-generator.php:46-110 | each loop iteration shrinks the set of unvisited mentioned ids, or keeps it and shrinks the stack, so the loop ends on cyclic records |
| Traversal.StepAppends | includes/class-rootspersona-svg-generator.php:47-70 | one iteration adds at most one node, at the end, and keeps the earlier nodes |
| Traversal.Run | includes/class-rootspersona-svg-generator.php:46 | the walk ends with an empty stack or with at least `max_nodes` nodes |
| Traversal.RunStep | includes/class-rootspersona-svg-generator.php:46-110 | while the guard holds, the walk is one iteration followed by the rest of the walk |
| Traversal.RunDone | includes/class-rootspersona-svg-generator.php:46 | once the guard fails the walk stops |
| Traversal.StepInv | includes/class-rootspersona-svg-generator.php:46-110 | one iteration preserves the traversal invariant (bounded, distinct, record-built, connected nodes; anchored edges; linked stack) |
| Traversal.SpouseLinksEmptyHusband | includes/class-rootspersona-svg-generator.php:74-79 | a present but empty HUSB element is returned as spouse id `""` ahead of the wife, and the truthiness test then adds no spouse |
| Traversal.DiscoverParentsWithinDepth | includes/class-rootspersona-svg-generator.php:52-104 | every parent found from a node admitted within `max_depth` lies strictly inside the bound, so it is never skipped for depth |
| Traversal.StepDepthCut | includes/class-rootspersona-svg-generator.php:46-109 | while every stacked item is at most one level past `max_depth`, a depth skip happens only at exactly that level, which only child links reach, and the step keeps the bound |
| Traversal.RunDepthBounded | includes/class-rootspersona-svg-generator.php:46-109 | the whole loop keeps every stacked item at most one level past `max_depth` |
| Traversal.StepAdmits | includes/class-rootspersona-svg-generator.php:55-109 | an unvisited, shallow enough, known item is marked visited, stored as a node, and its links are pushed and recorded |
| Traversal.RunInv | includes/class-rootspersona-svg-generator.php:46-110 | the whole loop preserves the traversal invariant |
| Traversal.TraverseShape | includes/class-rootspersona-svg-generator.php:39-113 | at most `max_nodes` nodes; each id at most once; nodes built from their records; the start comes first and every later node is linked to an earlier one; every edge is anchored at a node |
| Traversal.NoPhotosWhenDisabled | includes/class-rootspersona-svg-generator.php:177 | with `include_photos` off no node carries a photo |
| Traversal.RunExtends | includes/class-rootspersona-svg-generator.php:62 | nodes are only ever appended |
| Traversal.TraverseEmpty | includes/class-rootspersona-svg-generator.php:46-60 | the tree is empty exactly when the start person is unknown, `max_nodes < 1` or `max_depth < 0` |
| Ranking.ScanEdgeGrows | includes/class-rootspersona-svg-generator.php:227-236 | scanning one edge only adds ranks to unranked ids, appends them to the queue, and ranks both ends of an edge touching the current id |
| Ranking.ScanEdges | includes/class-rootspersona-svg-generator.php:227-236 | after one scan of all edges, every neighbour of the current id is ranked; earlier ranks are unchanged; each new rank is justified by an edge |
| Ranking.ScanShrinks | includes/class-rootspersona-svg-generator.php:223-237 | each pass of the queue loop ranks a new id or shortens the queue, so the loop ends |
| Ranking.LoopStepInv | includes/class-rootspersona-svg-generator.php:223-237 | one pass keeps the root at rank 0, every rank justified by an edge, and every dequeued id fully processed |
| Ranking.LoopInvHolds | includes/class-rootspersona-svg-generator.php:223-237 | the queue loop ends with the root at 0, every rank justified, every ranked id processed, and only edge endpoints ranked |
| Ranking.RanksProperties | includes/class-rootspersona-svg-generator.php:219-237 | the start has rank 0; every other rank is `+1`/`+0` from a ranked `from` or `-1` from a ranked `to`; an edge has both ends ranked or neither |
| Ranking.EveryNodeRanked | includes/class-rootspersona-svg-generator.php:219-242 | every node the traversal stores is reached by the rank pass, so the fallback rank 0 is never needed |
| Layout.RowOf | includes/class-rootspersona-svg-generator.php:241-244 | a row holds exactly the nodes of that rank, in insertion order |
| Layout.GroupMap | includes/class-rootspersona-svg-generator.php:240-244 | the groups are keyed by exactly the ranks in use, each holding that rank's row |
| Layout.InsertSorted | includes/class-rootspersona-svg-generator.php:245 | inserting into an increasing sequence keeps it increasing and adds exactly that element |
| Layout.SortDistinct | includes/class-rootspersona-svg-generator.php:245 | the rank keys come out strictly increasing with the same elements |
| Layout.IncreasingUnique | includes/class-rootspersona-svg-generator.php:245 | two increasing sequences with the same elements are equal, so the sort order is unique |
| Layout.RowRanks | includes/class-rootspersona-svg-generator.php:239-245 | the row ranks are strictly increasing and are exactly the ranks in use |
| Layout.RowsArePermutation | includes/class-rootspersona-svg-generator.php:239-245 | the rows together are a permutation of the nodes |
| Layout.RowsByRank | includes/class-rootspersona-svg-generator.php:239-245 | one non-empty row per rank in use, in ascending rank order, holding exactly the nodes of that rank |
| Layout.MaxLen | includes/class-rootspersona-svg-generator.php:247-250 | the widest row's length: no row is longer, some row has it, and it is 0 with no rows |
| Layout.PlaceRow | includes/class-rootspersona-svg-generator.php:275-283 | card `i` of a row is at `x = (width-(c-1)·220)/2 + 220·i` on the row's `y` |
| Layout.PlacementsSlots | includes/class-rootspersona-svg-generator.php:273-285 | each placed card is the row/column slot of a node of the rows, one slot per node |
| Layout.CardsInsideViewBox | includes/class-rootspersona-svg-generator.php:252-285 | every 180×100 card lies inside the `400+220·maxRow` by `200+160·rows` view box |
| Layout.RowsShareCentre | includes/class-rootspersona-svg-generator.php:275 | every row is centred on the same vertical axis |
| Layout.CardsDisjoint | includes/class-rootspersona-svg-generator.php:275-284 | two different slots never overlap |
| Layout.Positions | includes/class-rootspersona-svg-generator.php:281 | every placed node has a position, and each position is that of a card placed for it |
| Layout.Lines | includes/class-rootspersona-svg-generator.php:288-303 | a line for every edge with both endpoints placed, and for no other edge |
| Render.AvatarCode | includes/class-rootspersona-svg-generator.php:410-411 | the avatar code is always `m`, `f` or `u` |
| Render.AvatarCodeCases | includes/class-rootspersona-svg-generator.php:410-411 | `m` exactly for sex `m`/`M`, `f` exactly for `f`/`F`, `u` for anything else |
| Render.DatesCases | includes/class-rootspersona-svg-generator.php:425-431 | the label is birth alone, `birth – death`, `– death` for a death-only person, or `—` when both are empty |
| Render.AvatarResolves | includes/class-rootspersona-svg-generator.php:308-362 | every avatar reference names one of the three defined symbols |
| Render.RenderNodeShape | includes/class-rootspersona-svg-generator.php:364-443 | a card at its slot whose data-id is the escaped (quote-free) person id, showing the picture, frame, name and date labels in that order; the photo exactly when a photo URL is present, else the avatar symbol of the person's sex, which resolves; wrapped in a link to the permalink exactly when one is present |
| Render.RenderSlots | includes/class-rootspersona-svg-generator.php:277-283 | one card per slot, in slot order, each rendered at its slot |
| Render.RenderNoData | includes/class-rootspersona-svg-generator.php:201-202 | the fixed "No data" document is produced exactly for an empty node set |
| Render.TreeSlotsPermutation | includes/class-rootspersona-svg-generator.php:239-285 | the placed nodes are a permutation of the tree's nodes |
| Render.RenderCardsPerNode | includes/class-rootspersona-svg-generator.php:273-285 | the document's cards are those of the placed slots, one per node |
| Render.RenderCardsInside | includes/class-rootspersona-svg-generator.php:252-285 | every card of the document lies inside its view box |
| Render.SlotCardsInside | includes/class-rootspersona-svg-generator.php:252-285 | the cards rendered for placed rows lie inside the view box |
| Render.LineAnchored | includes/class-rootspersona-svg-generator.php:291-298 | a drawn line runs from the bottom centre `(x+90, y+100)` of one placed card to the top centre `(x'+90, y')` of another |
| Render.LinesAnchored | includes/class-rootspersona-svg-generator.php:288-303 | every drawn line joins two placed cards |
| Render.PlacedHavePositions | includes/class-rootspersona-svg-generator.php:281 | every node of the tree gets a position |
| Render.RenderLines | includes/class-rootspersona-svg-generator.php:287-303 | every line joins two cards, and every edge between stored nodes is drawn |
| TransientCache.Fetch | includes/class-rootspersona-svg-generator.php:27 | a hit exactly when the key is stored and not expired, yielding the stored value |
| TransientCache.Store | includes/class-rootspersona-svg-generator.php:35 | the key now holds the value for one day; other keys are unchanged |
| TransientCache.FetchAfterStore | includes/class-rootspersona-svg-generator.php:27-35 | a stored value is fetched back until it expires, and other keys read as before |
| TransientCache.Cleared | admin/class-rootspersona-svg-admin.php:277-281 | the cache clear removes exactly the `rp_svg_` keys |
| TransientCache.FetchAfterClear | admin/class-rootspersona-svg-admin.php:277-281 | after the clear every drawing misses and every other transient reads as before |
| TransientCache.TransientStore.Get | includes/class-rootspersona-svg-generator.php:27 | returns the live value; an expired entry is dropped |
| TransientCache.TransientStore.Set | includes/class-rootspersona-svg-generator.php:35 | the store becomes the one-day store of the value |
| TransientCache.TransientStore.ClearAll | admin/class-rootspersona-svg-admin.php:277-281 | removes the drawing entries and reports two deleted rows (value and timeout) per entry |
| TransientCache.JoinedKeyCollides | includes/class-rootspersona-svg-generator.php:26 | the `\|`-joined key as written is the same for two different (batch, person) pairs |
| TransientCache.ReadFieldOf | includes/class-rootspersona-svg-generator.php:26 | a length-prefixed field reads back exactly |
| TransientCache.ParseKeyOf | includes/class-rootspersona-svg-generator.php:26 | a cache key parses back to its batch, person and serialised options |
| TransientCache.KeyOfInjective | includes/class-rootspersona-svg-generator.php:26 | equal keys only for equal batch, person and options |
| TransientCache.CacheKey | includes/class-rootspersona-svg-generator.php:26 | the key carries the `rp_svg_` prefix and determines batch, person and options |
| SvgGenerator.StepCases | includes/class-rootspersona-svg-generator.php:47-109 | one iteration skips visited or too-deep items, marks an unknown id visited without a node or links, and otherwise stores the node and pushes its links |
| SvgGenerator.SortedGroups | includes/class-rootspersona-svg-generator.php:240-245 | the groups taken in sorted key order are exactly the rows by ascending rank |
| SvgGenerator.Generator.constructor | includes/class-rootspersona-svg-generator.php:15-23 | batch and defaulted options are set, and both memo caches start empty |
| SvgGenerator.Generator.GetPersonCached | includes/class-rootspersona-svg-generator.php:115-120 | returns the person lookup; a cached present record is not fetched again; a miss is fetched once and memoised |
| SvgGenerator.Generator.GetFamilyCached | includes/class-rootspersona-svg-generator.php:122-127 | returns the family lookup; a cached present record is not fetched again; a miss is fetched once and memoised |
| SvgGenerator.Generator.GetFamiliesForPersonCached | includes/class-rootspersona-svg-generator.php:129-145 | returns the person's FAMS then FAMC families, each found family once |
| SvgGenerator.Generator.CollectFamily | includes/class-rootspersona-svg-generator.php:138-140 | a found family id not yet listed is appended with its record |
| SvgGenerator.Generator.AddFamilyLinks | includes/class-rootspersona-svg-generator.php:74-90 | appends exactly the spouse and child links of each family to the stack and edges |
| SvgGenerator.Generator.AddChildLinks | includes/class-rootspersona-svg-generator.php:81-89 | appends exactly the child links to the stack and edges |
| SvgGenerator.Generator.AddParentLinks | includes/class-rootspersona-svg-generator.php:93-109 | appends exactly the parent links of every FAMC family found |
| SvgGenerator.Generator.BuildTreeIteratively | includes/class-rootspersona-svg-generator.php:39-113 | returns the traversal, so every property proved of `Traverse` holds of it |
| SvgGenerator.Generator.VisitTop | includes/class-rootspersona-svg-generator.php:47-109 | performs one loop iteration on an admissible top item |
| SvgGenerator.Generator.AssignRanks | includes/class-rootspersona-svg-generator.php:219-237 | returns the breadth-first ranks |
| SvgGenerator.Generator.ScanEdgesFrom | includes/class-rootspersona-svg-generator.php:227-236 | one scan of all edges for the dequeued id |
| SvgGenerator.Generator.ScanEdgeAt | includes/class-rootspersona-svg-generator.php:228-235 | the forward and backward checks of one edge |
| SvgGenerator.Generator.GroupByRank | includes/class-rootspersona-svg-generator.php:240-244 | the rank groups, with the distinct ranks listed once each |
| SvgGenerator.Generator.MaxRowWidth | includes/class-rootspersona-svg-generator.php:247-250 | the widest row's length |
| SvgGenerator.Generator.PlaceCards | includes/class-rootspersona-svg-generator.php:273-285 | the cards and positions of all placed slots |
| SvgGenerator.Generator.PlaceRowCards | includes/class-rootspersona-svg-generator.php:275-284 | extends the cards and positions by one placed row |
| SvgGenerator.Generator.PlaceCard | includes/class-rootspersona-svg-generator.php:278-282 | extends the cards and positions by one card |
| SvgGenerator.Generator.DrawEdges | includes/class-rootspersona-svg-generator.php:288-303 | the lines of the edges whose endpoints are placed |
| SvgGenerator.Generator.RenderSvg | includes/class-rootspersona-svg-generator.php:197-306 | returns the rendering of the tree, so every property proved of `Render` holds of it |
| SvgGenerator.Generator.RankRows | includes/class-rootspersona-svg-generator.php:219-245 | the rows sorted by rank |
| SvgGenerator.Generator.DrawRows | includes/class-rootspersona-svg-generator.php:247-303 | the document for those rows and edges |
| SvgGenerator.Generator.GenerateSvg | includes/class-rootspersona-svg-generator.php:25-37 | a hit returns the stored drawing and changes nothing; a miss renders the traversal and stores it under the (batch, person, options) key for one day |
| Settings.VersionValue | rootspersona.php:914 | the stored version is always `3.7.6` |
| Settings.SystemOfRecordFlag | rootspersona.php:917 | `is_system_of_record` is 0 or 1, and 1 exactly when the input is `true` |
| Settings.HeaderStyleChoice | rootspersona.php:928 | `header_style` is 1 or 2, and 2 exactly when the input loosely equals 2 |
| Settings.HideFlag | rootspersona.php:929-941 | every `hide_*` switch is 0 or 1, and 1 exactly when the input loosely equals 1 |
| Settings.CheckFlag | rootspersona.php:942-945 | each check box is 0 or 1, and 1 exactly when it is sent and truthy |
| Settings.OneOfChoice | rootspersona.php:946-951 | a privacy value is always in its allowed set: the input when allowed, else the default |
| Settings.CleanIsClean | rootspersona.php:918-953 | text fields are trimmed and free of `< > " '` |
| Settings.SanitiseInRange | rootspersona.php:914-953 | every value the validator computes lies in its closed set |
| Settings.WriteGeneral | rootspersona.php:914-917 | writes version, parent page, per page and system of record, and nothing else |
| Settings.WriteColours | rootspersona.php:918-927 | writes the ten colour and image fields, and nothing else |
| Settings.WriteSwitches | rootspersona.php:928-941 | writes header style and the thirteen switches, and nothing else |
| Settings.WriteChecks | rootspersona.php:942-945 | writes the four check boxes, and nothing else |
| Settings.WritePrivacy | rootspersona.php:946-951 | writes the two privacy choices, and nothing else |
| Settings.WriteCustom | rootspersona.php:952-953 | writes the custom style and custom page, and nothing else |
| Settings.WriteForm | rootspersona.php:913-954 | every validated field is written, and every key the validator does not own keeps its stored value |
| Settings.SavedValidated | rootspersona.php:913-954 | writing in-range values yields an option array whose every owned field lies in its closed set |
| Settings.ValidateOptions | rootspersona.php:912-955 | the result holds the sanitised input, every field in its closed set, and keeps all other stored keys |
| Php.Trim | rootspersona.php:914 | the result has no leading or trailing blank |
| Php.TrimSlice | rootspersona.php:914 | the result is a run of consecutive characters of the input, and everything cut off either end is a trim character |
| Php.TrimIdempotent | rootspersona.php:914 | trimming twice is trimming once |
| Php.Lower | includes/class-rootspersona-svg-generator.php:410 | same length, each ASCII capital lowered |
| Php.ImplodeExplode | rootspersona.php:336 | joining the pieces of a split gives back the text |
| Php.ExplodeImplode | rootspersona.php:336 | splitting a join of delimiter-free pieces gives back the pieces |
| Php.ExplodePiecesFree | rootspersona.php:336 | no piece of a split contains the delimiter |
| Php.ReplaceAllIsImplodeExplode | rootspersona.php:103-105 | replacing every occurrence is splitting on the needle and joining with the replacement |
| Php.ReplaceAllAbsent | rootspersona.php:103-105 | replacing an absent needle changes nothing |
| Php.Intval | rootspersona.php:915-916 | `intval` always lies in the 64-bit range |
| Php.IntegerValueOfIntToString | rootspersona.php:915-916 | a printed integer is an integer numeric string of its value, so loose `==` reads it back |
| Php.IntvalOfIntToString | rootspersona.php:915-916 | `intval` reads back a printed integer, clamped to the 64-bit range |
| Php.IntvalExponent | rootspersona.php:915-916 | `intval` of `m e x` is m·10^x, clamped to the 64-bit range |
| Php.IntvalFraction | rootspersona.php:915-916 | `intval` of `m . f` cuts the fraction off, leaving m clamped to the 64-bit range |
| Php.EscAttr | rootspersona.php:918 | escaped text has no `< > " '`; an existing entity is kept |
| Php.EscAttrPlain | rootspersona.php:918 | text without special characters is unchanged by escaping |
| Php.EscAttrIdempotent | rootspersona.php:918 | escaping never encodes twice: escaping escaped text changes nothing |
| Php.HtmlDecodeEscAttr | rootspersona.php:102 | decoding escaped text reads what the text itself reads |
| Php.HtmlDecodePlain | rootspersona.php:102 | text without `&` decodes to itself |
| Handlers.Field | rootspersona.php:338-339 | the key is before the first `=` and the value between the first and the second, both free of `=`; a piece without `=` is its own key with the empty value |
| Handlers.ParseDatastr | rootspersona.php:335-341 | the loop yields the form of the `&`-separated pieces |
| Handlers.FormKeys | rootspersona.php:336-340 | the form's keys are exactly the keys of the pieces |
| Handlers.FormLastWins | rootspersona.php:337-340 | a key takes the value of its last piece |
| Handlers.FieldOfPair | rootspersona.php:338-339 | `k=v` reads as `(k, v)` |
| Handlers.FieldCutsValue | rootspersona.php:338-339 | `k=v=w` reads as `(k, v)`: the value stops at the second `=` |
| Handlers.EmptyDatastr | rootspersona.php:335-341 | an empty string parses to the single empty key with an empty value |
| Handlers.DatastrRoundTrip | rootspersona.php:335-341 | an encoded list of pairs parses to exactly its keys, each with its last value |
| Handlers.PersonaId | rootspersona.php:92-93 | the person id is absent when missing or loosely equal to 0, else the attribute |
| Handlers.PersonaPage | rootspersona.php:92-117 | the invalid-person notice exactly when the id is missing or 0; the custom page exactly when there is an id, the shortcode is the plain persona one and a non-empty custom page is stored, and then it is the decoded page with the id, batch id (default `1`) and picture (default silhouette) filled in; otherwise a built page for that id and batch id |
| Handlers.CustomPageAsTyped | rootspersona.php:98-106 | a custom page typed without surrounding blanks or placeholders and stored through the validator is shown as its typed text reads once decoded, which is exactly as typed when it holds no `&` |
| Handlers.CleanDecodes | rootspersona.php:102 | the stored custom page decodes to what the typed text decodes to, and stays non-empty |
| Handlers.FillTemplateAbsent | rootspersona.php:103-105 | a template without placeholders is unchanged |
| Handlers.EscAttrTrimmed | rootspersona.php:953 | escaping trimmed text keeps it trimmed |
| Handlers.EscAttrLength | rootspersona.php:953 | escaping never shortens text |
| Handlers.PlaceholderOrder | rootspersona.php:103-105 | the page is the template split at `{%personid%}` and joined with the id, then split and joined for the batch id, then for the picture, so a placeholder inside the person id is filled too |
| Handlers.FlipSseq | rootspersona.php:277-282 | the new `sseq` is `1` or `2`, and `2` exactly when the input loosely equals 1 |
| Handlers.FlipSseqTwice | rootspersona.php:277-282 | flipping twice gives `1` exactly for a position that reads as 1 and `2` otherwise |
| Handlers.NewPersonLink | rootspersona.php:262-283 | `famc` wins over `fams`, which wins over `child`; a spouse or parent takes the flipped `sseq` |
| Handlers.MenuFilter | rootspersona.php:970-981 | only `exclude_tree` changes, and it is set whenever a parent page is stored |
| Handlers.MenuFilterExcludes | rootspersona.php:975-979 | the parent page is appended as one more comma-separated entry to an existing `exclude_tree`, or is its only entry |
| Handlers.QueryVars | rootspersona.php:962-968 | the variables are kept in order, with exactly `rootsvar` and `override-surname` appended |

## Left out

- Database and WordPress lookups are finite maps or parameters:
  - the bodies of `get_person_by_id` and `get_family_by_id`;
  - `get_page_id_by_person_id` and `get_permalink` (the `permalinks` map);
  - the photo SQL and `wp_get_attachment_image_url` (the `photos` map);
  - `plugins_url` (the `defaultPicture` parameter).
- Records.Lookup: a record that exists but is an empty XML element is falsy in PHP. The model treats every stored record as present.
- `esc_url` and `wp_kses_post` are the identity.
- Php.EscAttr: the entities it keeps are the five it writes (`&amp; &lt; &gt; &quot; &#039;`). WordPress also keeps every other valid named or numeric entity (`&eacute;`, `&#233;`), whose `&` the model escapes.
- Php.HtmlDecode: covers the same five entities only.
- Php.Intval: the number is read exactly and then cut, where PHP first rounds it to a double. The two differ only when that rounding crosses an integer or a 64-bit bound (`0.99999999999999999999` is 1 in PHP and 0 here). Settings.WriteGeneral stores this value.
- Records.SpouseId: the id may be `""` or `"0"` when a present HUSB or WIFE element has that text, because the element object is true whatever its text. The wife is then not tried, and the caller's truthiness test adds no spouse (Traversal.SpouseLinksEmptyHusband).
- Traversal.ParentLinks: uses the corrected parent step `Traversal.ParentLink` of the second "Findings" row. As written, every FAMC family with a HUSB or WIFE element makes `isset( $visited[ $parent_id ] )` throw a TypeError that nothing catches, so the drawing fails. The model replaces that path; `Traversal.Discover`, `Traverse`, `SvgGenerator.Generator.AddParentLinks`, `SvgGenerator.Generator.BuildTreeIteratively`, `SvgGenerator.Generator.GenerateSvg` and everything proved about them describe the corrected walk.
- The XML serialisation of the document is left out. The document is an abstract list of symbols, cards and lines.
- Render.RenderNode: the picture is appended before the opaque white frame, so the frame hides it. The model keeps this paint order as written and proves no visibility property.
- Cache key: `md5` is not modelled. The key is the injective text `TransientCache.KeyOf`. The `serialize` of the options is written out for the four default keys.
- Time is a parameter (`now`). No clock is read.
- Orientation is accepted and ignored, as in the code.
- The dead `$levels` table and the items' `side` and `parent_edge` fields are not modelled. Nothing reads them.
- PHP turns numeric-string array keys into integers. This is not modelled: ids stay strings and compare with `==`.
- `urldecode` of `datastr` is not modelled. The parser works on decoded text.
- Loose `==` against an integer recognises integer-form strings only (blanks, sign, digits, blanks). `"2.0"` or `"1e0"` compare as not equal here.
- `get_option` returning `false` is not modelled. The stored option array is a map, possibly empty.
- Settings.ValidateOptions: all field values are computed first and then assigned section by section. The assignment order of the source does not change the result.
- Handlers.PersonaPage: the page-builder output and `do_shortcode` are not modelled. `BuiltPage` records only the person and batch ids.
- Nonce and capability checks, file upload, enqueueing, activation SQL, multisite loops and the admin form are left out.
- The admin AJAX delete is modelled only as TransientStore.ClearAll on the cache store.

## Findings

| source | as written | input that shows it | evidently intended | confidence | as-written member | corrected member |
|---|---|---|---|---|---|---|
| includes/class-rootspersona-svg-generator.php:26 | the cache key joins batch, person and options with `\|` before hashing | batch `1\|2` with person `3`, and batch `1` with person `2\|3`, give the same key and so share one cached drawing | the key is determined by (batch, person, options) | low, not executed | TransientCache.JoinedKeyCollides | TransientCache.KeyOfInjective |
| includes/class-rootspersona-svg-generator.php:99-105 | `$family->HUSB ?? null` hands on the HUSB (and WIFE) element object itself, and `isset( $visited[ $parent_id ] )` then uses that object as an array key | any FAMC family with a HUSB or WIFE element, whatever its text: PHP 8 throws a TypeError (illegal offset type in isset) and no parent is ever added | the parent's id text, as the children's `__toString()` at line 83 | medium, not executed | Traversal.ParentStepAsWritten | Traversal.ParentLink |
