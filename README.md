# GeoMap marker state, in Dafny

This project models the state machine behind the `GeoMap` map component
(`src/components/GeoMap.tsx`). The component keeps an ordered list of named
markers `{position, name}`, an edit form (`editingMarker`, `editedName`,
`editedPosition`), a search box (`searchQuery`) and an add form
(`isAddMarkerMode`, `newMarkerPosition`, `newMarkerName`). Its event handlers
add, edit and delete markers, filter the list by name, and save the list to
the browser's local storage, which is loaded again when the page is next opened.

Files:

- `text.dfy`, module `JsText`: the JavaScript string operations the handlers
  use. `Trim` is `String.prototype.trim` over the full set of JavaScript
  whitespace and line-terminator characters. `Lower` is `toLowerCase` for ASCII
  letters. `Contains` is `includes`.
- `markers.dfy`, module `Markers`: the `Marker` and `Position` records. It also
  holds the search view `Filtered` and the index filter `RemoveAt` used by
  delete, both as functions over sequences, with lemmas about them.
- `geomap.dfy`, module `GeoMapComponent`: class `GeoMap`. Its fields are the
  component's state, and its methods are the handlers. Each method's
  postcondition gives the complete new state (`State()`, a value holding every
  field) in terms of the old one. Class `Storage` stands for local storage: it
  holds the last saved snapshot, or `None`.
- `wrappers.dfy`, module `Wrappers`: `Option`, used for the fields the source
  declares as nullable.

Handlers read the state of the render they were created in and then replace
fields. One method call does the same: it reads the old fields and assigns new
ones. The invariant `Valid()` says that an edit in progress always has an
edited position. Every handler preserves it.

The source's index quirk is reproduced, not fixed. The Edit and Delete buttons
pass the marker's position in the *search view*. `StartEditing`,
`SaveEditedMarker` and `DeleteMarker` use that number as a position in the
*full* list. `IndexSpacesAgreeOnEmptyQuery` proves the two positions name the
same marker when the search box is empty. `IndexSpacesDisagreeExample` shows
that they can differ otherwise. The model never claims they agree in general.

Deleting a marker while another one is being edited is not guarded against.
`DeleteWhileEditingExample` builds a state where the edit index is past the end
of the list. The edit form, and so its Save button, is only rendered for a
search-view position equal to the edit index. Since the view is never longer
than the list (`Filtered`), Save is unreachable from such a state. `SaveButton`
checks this: from the rendering condition alone it meets the in-range
precondition of `SaveEditedMarker`.

## Model

| member | source | states |
|---|---|---|
| `JsText.TrimStart` | src/components/GeoMap.tsx:61 | leading part of `trim`: the result is a suffix of the input, everything dropped is whitespace, and the result does not start with whitespace |
| `JsText.TrimEnd` | src/components/GeoMap.tsx:61 | trailing part of `trim`: the result is a prefix of the input, everything dropped is whitespace, and the result does not end with whitespace |
| `JsText.TrimEmptyIff` | src/components/GeoMap.tsx:61 | `name.trim()` is empty (falsy) exactly when every character of the name is whitespace |
| `JsText.Lower` | src/components/GeoMap.tsx:113 | `toLowerCase` on ASCII: each capital A-Z becomes the small letter 32 code points above it, every other character is kept, the length is kept, and no capital remains |
| `JsText.LowerIdempotent` | src/components/GeoMap.tsx:113 | lower-casing an already lower-cased string changes nothing |
| `JsText.ContainsIff` | src/components/GeoMap.tsx:113 | `includes` holds exactly when the needle occurs at some position of the haystack |
| `Markers.Filtered` | src/components/GeoMap.tsx:112-114 | the search view is never longer than the list, so every position it shows is a valid position in `markers` |
| `Markers.FilteredIsSubsequence` | src/components/GeoMap.tsx:112-114 | the search view is an order-preserving subsequence of the markers |
| `Markers.FilteredCount` | src/components/GeoMap.tsx:112-114 | each marker whose lower-cased name includes the lower-cased query occurs in the view as often as in the list; no other marker occurs |
| `Markers.FilteredMembership` | src/components/GeoMap.tsx:112-114 | a marker is in the view exactly when it is in the list and matches the query |
| `Markers.FilteredIsAllIff` | src/components/GeoMap.tsx:112-114 | the view equals the whole list exactly when every marker matches the query |
| `Markers.FilteredCaseInsensitive` | src/components/GeoMap.tsx:112-114 | two queries that differ only in ASCII case show exactly the same markers |
| `Markers.FilteredSameForLoweredQuery` | src/components/GeoMap.tsx:112-114 | a query and its lower-cased form show exactly the same markers |
| `Markers.IndexSpacesAgreeOnEmptyQuery` | src/components/GeoMap.tsx:157 | with an empty query the view is the whole list, so position i of the view is position i of `markers` |
| `Markers.IndexSpacesDisagreeExample` | src/components/GeoMap.tsx:204-205 | with the query "b" over markers "A", "B", position 0 of the view is "B" while position 0 of `markers` is "A" |
| `Markers.RemoveAt` | src/components/GeoMap.tsx:107 | filtering out index i removes exactly entry i and keeps the order of the rest; length drops by one for an index in range, and an index out of range changes nothing |
| `GeoMapComponent.GeoMap.Mount` | src/components/GeoMap.tsx:34-75 | initial state: the three built-in markers, or the stored snapshot when there is one; empty edit, search and add fields; add mode off |
| `GeoMapComponent.GeoMap.SaveMarkers` | src/components/GeoMap.tsx:78-81 | storage then holds exactly the current markers, replacing any earlier snapshot |
| `GeoMapComponent.SaveThenReload` | src/components/GeoMap.tsx:70-81 | saving and then mounting a new component on the same storage gives back the same markers in the same order |
| `GeoMapComponent.GeoMap.ToggleAddMode` | src/components/GeoMap.tsx:130 | add mode is flipped; every other field, including a chosen position, is unchanged |
| `GeoMapComponent.GeoMap.MapClick` | src/components/GeoMap.tsx:50-54 | in add mode only the chosen position is set to the click; outside add mode nothing changes; markers never change |
| `GeoMapComponent.GeoMap.SetNewMarkerName` | src/components/GeoMap.tsx:221 | only the add form's name changes |
| `GeoMapComponent.GeoMap.SetSearchQuery` | src/components/GeoMap.tsx:123 | only the query changes |
| `GeoMapComponent.GeoMap.AddMarker` | src/components/GeoMap.tsx:60-67 | with a chosen position and a name that is not all whitespace: exactly one marker `{position, untrimmed name}` is appended, earlier entries are unchanged, the chosen position is cleared, the name is `''` and add mode is off; with no position or an all-whitespace name nothing changes |
| `GeoMapComponent.GeoMap.StartEditing` | src/components/GeoMap.tsx:84-88 | the edit index becomes i and the edit fields hold markers[i]'s name and position; markers and all other fields are unchanged |
| `GeoMapComponent.GeoMap.SetEditedName` | src/components/GeoMap.tsx:167 | only the edited name changes |
| `GeoMapComponent.GeoMap.EditLatitude` | src/components/GeoMap.tsx:175-181 | the edited position gets the new latitude and keeps its longitude, or longitude 0 when there was no edited position |
| `GeoMapComponent.GeoMap.EditLongitude` | src/components/GeoMap.tsx:188-193 | the edited position gets the new longitude and keeps its latitude, or latitude 0 when there was no edited position |
| `GeoMapComponent.GeoMap.SaveEditedMarker` | src/components/GeoMap.tsx:91-102 | with an edit in progress: only the entry at the edit index is replaced by the unchecked edited name and position, the length is unchanged, and the edit fields are reset; with no edit in progress nothing changes. The invariant `Valid()` makes the source's `editedPosition` test redundant, so the contract splits on the edit index alone |
| `GeoMapComponent.GeoMap.DeleteMarker` | src/components/GeoMap.tsx:106-109 | markers become the list without entry i, in order, one shorter; an out-of-range i changes nothing; the edit index is not adjusted |
| `GeoMapComponent.GeoMap.EditButton` | src/components/GeoMap.tsx:204 | the whole new state is `StartEditing` at the view position used as a list position: edit index i, name and position of markers[i], everything else unchanged; with an empty query this is the marker that was clicked |
| `GeoMapComponent.GeoMap.DeleteButton` | src/components/GeoMap.tsx:205 | the whole new state is the list without entry i, the view position used as a list position, with every other field (the edit index included) unchanged; with an empty query exactly the clicked marker is removed |
| `GeoMapComponent.GeoMap.SaveButton` | src/components/GeoMap.tsx:160-196 | the Save button, rendered only when the edit index is a position of the view, always finds the index inside `markers`; it replaces that entry and resets the edit fields |
| `GeoMapComponent.DeleteWhileEditingExample` | src/components/GeoMap.tsx:106-109 | deleting marker 0 while marker 2 of three is being edited leaves the edit index 2 with only two markers |

## Left out

- Rendering, layout, popups and styling of the component, and all of `src/App.tsx`: presentation only. The Edit and Delete buttons appear only as the index they pass (`EditButton`, `DeleteButton`).
- Leaflet and react-leaflet: the icon setup, enabling and disabling map dragging in add mode, marker clustering and the tile layer are library behaviour.
- `localStorage`, `JSON.stringify`/`JSON.parse` and `alert`. Storage is a snapshot of the marker sequence. Malformed stored text, which the source would fail on, is not modelled. Neither is the loss of `NaN` coordinates that JSON would turn into `null`.
- Floating point: coordinates are `real` numbers, and `toFixed` display is not modelled. A `real` cannot be `NaN`, which `parseFloat` returns for an empty box; any real stands in for it. No modelled handler branches on a coordinate, so no behaviour is lost.
- `Lower`: only ASCII letters are lower-cased. The full Unicode case mapping of `toLowerCase` (such as Romanian letters with diacritics) is not modelled.
- `SaveEditedMarker`: requires an edit index inside `markers`. With a larger index, JavaScript would grow the copied array with holes. The Save button cannot be reached in that state; `SaveButton` proves its rendering condition implies the precondition.
- `StartEditing`: requires an index inside `markers`, as every Edit button passes one. With an index out of range the source would throw.
