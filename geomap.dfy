/** The state of the map component and its event handlers. Each handler reads
    the state of the render it was created in and then replaces some fields,
    which is what one call of a method on this class does. */
module GeoMapComponent {
  import opened Wrappers
  import opened JsText
  import opened Markers

  /** The three markers a fresh component starts with. */
  function InitialMarkers(): seq<Marker> {
    [ Marker(Position(46.772397, 23.603139), "Dorobantilor"),
      Marker(Position(46.770578, 23.597259), "Teatrul National Cluj-Napoca"),
      Marker(Position(46.752730, 23.531464), "Vivo Mall Cluj-Napoca") ]
  }

  /** The browser's local storage under the key 'markers': the last snapshot
      saved, if any. It outlives the component. */
  class Storage {
    var saved: Option<seq<Marker>>

    constructor Empty()
      ensures saved == None
    {
      saved := None;
    }
  }

  /** Every state field of the component, as one value. */
  datatype UiState = UiState(
    markers: seq<Marker>,
    editingMarker: Option<nat>,
    editedName: string,
    editedPosition: Option<Position>,
    searchQuery: string,
    isAddMarkerMode: bool,
    newMarkerPosition: Option<Position>,
    newMarkerName: string)

  class GeoMap {
    var markers: seq<Marker>
    /** Index into `markers` of the entry whose popup shows the edit form. */
    var editingMarker: Option<nat>
    var editedName: string
    var editedPosition: Option<Position>
    var searchQuery: string
    var isAddMarkerMode: bool
    /** The map position chosen for the marker being added. */
    var newMarkerPosition: Option<Position>
    var newMarkerName: string
    const storage: Storage

    ghost function State(): UiState
      reads this
    {
      UiState(markers, editingMarker, editedName, editedPosition,
              searchQuery, isAddMarkerMode, newMarkerPosition, newMarkerName)
    }

    /** An edit in progress always has a position to save. */
    ghost predicate Valid()
      reads this
    {
      editingMarker.Some? ==> editedPosition.Some?
    }

    /** The markers shown on the map and addressed by the Edit and Delete
        buttons of their popups. */
    function FilteredMarkers(): seq<Marker>
      reads this
    {
      Filtered(markers, searchQuery)
    }

    /** First render followed by the mount effect: a saved snapshot, when there
        is one, replaces the three initial markers. */
    constructor Mount(storage: Storage)
      ensures Valid() && this.storage == storage
      ensures markers == if storage.saved.Some? then storage.saved.value else InitialMarkers()
      ensures editingMarker == None && editedName == "" && editedPosition == None
      ensures searchQuery == "" && !isAddMarkerMode
      ensures newMarkerPosition == None && newMarkerName == ""
    {
      markers := InitialMarkers();
      editingMarker := None;
      editedName := "";
      editedPosition := None;
      searchQuery := "";
      isAddMarkerMode := false;
      newMarkerPosition := None;
      newMarkerName := "";
      this.storage := storage;
      new;
      if storage.saved.Some? {
        markers := storage.saved.value;
      }
    }

    /** The Save Markers button: the snapshot replaces whatever was stored. */
    method SaveMarkers()
      modifies storage
      ensures storage.saved == Some(markers)
    {
      storage.saved := Some(markers);
    }

    /** The mode button flips add mode; a position already chosen is kept. */
    method ToggleAddMode()
      requires Valid()
      modifies this
      ensures Valid()
      ensures State() == old(State()).(isAddMarkerMode := !old(isAddMarkerMode))
    {
      isAddMarkerMode := !isAddMarkerMode;
    }

    /** A click on the map chooses the new marker's position in add mode and
        does nothing otherwise. */
    method MapClick(pos: Position)
      requires Valid()
      modifies this
      ensures Valid()
      ensures old(isAddMarkerMode) ==> State() == old(State()).(newMarkerPosition := Some(pos))
      ensures !old(isAddMarkerMode) ==> State() == old(State())
      ensures markers == old(markers)
    {
      if isAddMarkerMode {
        newMarkerPosition := Some(pos);
      }
    }

    /** Typing in the new marker's name box. */
    method SetNewMarkerName(name: string)
      requires Valid()
      modifies this
      ensures Valid()
      ensures State() == old(State()).(newMarkerName := name)
    {
      newMarkerName := name;
    }

    /** Typing in the search box. */
    method SetSearchQuery(query: string)
      requires Valid()
      modifies this
      ensures Valid()
      ensures State() == old(State()).(searchQuery := query)
    {
      searchQuery := query;
    }

    /** The Add Marker button: with a chosen position and a name that is not
        all whitespace, the marker is appended with its name as typed, and the
        add form is reset; otherwise nothing changes. */
    method AddMarker()
      requires Valid()
      modifies this
      ensures Valid()
      ensures old(newMarkerPosition.Some? && !AllWhitespace(newMarkerName)) ==>
        State() == old(State()).(
          markers := old(markers) + [Marker(old(newMarkerPosition).value, old(newMarkerName))],
          newMarkerPosition := None,
          newMarkerName := "",
          isAddMarkerMode := false)
      ensures old(newMarkerPosition.None? || AllWhitespace(newMarkerName)) ==> State() == old(State())
    {
      TrimEmptyIff(newMarkerName);
      if newMarkerPosition.Some? && Trim(newMarkerName) != [] {
        markers := markers + [Marker(newMarkerPosition.value, newMarkerName)];
        newMarkerPosition := None;
        newMarkerName := "";
        isAddMarkerMode := false;
      }
    }

    /** Opens the edit form for `markers[index]`, loading its name and position. */
    method StartEditing(index: nat)
      requires Valid()
      requires index < |markers|
      modifies this
      ensures Valid()
      ensures State() == old(State()).(
        editingMarker := Some(index),
        editedName := old(markers)[index].name,
        editedPosition := Some(old(markers)[index].position))
    {
      editingMarker := Some(index);
      editedName := markers[index].name;
      editedPosition := Some(markers[index].position);
    }

    /** Typing in the edit form's name box. */
    method SetEditedName(name: string)
      requires Valid()
      modifies this
      ensures Valid()
      ensures State() == old(State()).(editedName := name)
    {
      editedName := name;
    }

    /** Typing in the latitude box: the longitude is kept, or 0 when there is
        no edited position. */
    method EditLatitude(lat: real)
      requires Valid()
      modifies this
      ensures Valid()
      ensures State() == old(State()).(editedPosition := Some(Position(lat,
        if old(editedPosition).Some? then old(editedPosition).value.lng else 0.0)))
    {
      editedPosition := Some(Position(lat, if editedPosition.Some? then editedPosition.value.lng else 0.0));
    }

    /** Typing in the longitude box: the latitude is kept, or 0 when there is
        no edited position. */
    method EditLongitude(lng: real)
      requires Valid()
      modifies this
      ensures Valid()
      ensures State() == old(State()).(editedPosition := Some(Position(
        if old(editedPosition).Some? then old(editedPosition).value.lat else 0.0, lng)))
    {
      editedPosition := Some(Position(if editedPosition.Some? then editedPosition.value.lat else 0.0, lng));
    }

    /** The edit form's Save button: the entry at the edited index becomes the
        edited name and position, unchecked, and the form is closed; with no
        edit in progress nothing changes. By `Valid()` an edit in progress
        always has a position, so the source's second test never fails. */
    method SaveEditedMarker()
      requires Valid()
      requires editingMarker.Some? ==> editingMarker.value < |markers|
      modifies this
      ensures Valid()
      ensures old(editingMarker.Some?) ==>
        var k := old(editingMarker).value;
        && |markers| == |old(markers)|
        && markers[k] == Marker(old(editedPosition).value, old(editedName))
        && (forall j :: 0 <= j < |markers| && j != k ==> markers[j] == old(markers)[j])
        && State() == old(State()).(
             markers := old(markers)[k := Marker(old(editedPosition).value, old(editedName))],
             editingMarker := None,
             editedName := "",
             editedPosition := None)
      ensures old(editingMarker.None?) ==> State() == old(State())
    {
      if editingMarker.Some? && editedPosition.Some? {
        var updated := markers;
        updated := updated[editingMarker.value := Marker(editedPosition.value, editedName)];
        markers := updated;
        editingMarker := None;
        editedName := "";
        editedPosition := None;
      }
    }

    /** Removes the entry at `index` of `markers`, if there is one. An edit
        in progress keeps its index. */
    method DeleteMarker(index: int)
      requires Valid()
      modifies this
      ensures Valid()
      ensures 0 <= index < |old(markers)| ==>
        markers == old(markers)[..index] + old(markers)[index + 1..] && |markers| == |old(markers)| - 1
      ensures !(0 <= index < |old(markers)|) ==> markers == old(markers)
      ensures State() == old(State()).(markers := RemoveAt(old(markers), index))
    {
      markers := RemoveAt(markers, index);
    }

    /** The Edit button in the popup of the `index`-th shown marker. It passes
        that position of the search view to `StartEditing`, which reads the
        full collection: the form shows the marker clicked whenever the search
        box is empty. */
    method EditButton(index: nat)
      requires Valid()
      requires index < |FilteredMarkers()|
      modifies this
      ensures Valid()
      ensures State() == old(State()).(
        editingMarker := Some(index),
        editedName := old(markers)[index].name,
        editedPosition := Some(old(markers)[index].position))
      ensures old(searchQuery) == "" ==> editedName == old(FilteredMarkers())[index].name &&
                                         editedPosition == Some(old(FilteredMarkers())[index].position)
    {
      if searchQuery == "" {
        IndexSpacesAgreeOnEmptyQuery(markers, index);
      }
      StartEditing(index);
    }

    /** The Delete button in the popup of the `index`-th shown marker: with an
        empty search box it removes exactly the marker clicked. */
    method DeleteButton(index: nat)
      requires Valid()
      requires index < |FilteredMarkers()|
      modifies this
      ensures Valid()
      ensures State() == old(State()).(markers := old(markers)[..index] + old(markers)[index + 1..])
      ensures old(searchQuery) == "" ==>
        markers == old(FilteredMarkers())[..index] + old(FilteredMarkers())[index + 1..]
    {
      if searchQuery == "" {
        FilteredIsAllIff(markers, "");
      }
      DeleteMarker(index);
    }

    /** The Save button of the edit form. The form is rendered only in the
        popup of the shown marker whose view position is the edit index, and
        the view is never longer than the collection, so the index is inside
        `markers` whenever this button can be pressed. */
    method SaveButton()
      requires Valid()
      requires editingMarker.Some? && editingMarker.value < |FilteredMarkers()|
      modifies this
      ensures Valid()
      ensures var k := old(editingMarker).value;
        State() == old(State()).(
          markers := old(markers)[k := Marker(old(editedPosition).value, old(editedName))],
          editingMarker := None,
          editedName := "",
          editedPosition := None)
    {
      SaveEditedMarker();
    }
  }

  /** Saving and then loading the page again brings back the same markers, in
      the same order. */
  method SaveThenReload(page: GeoMap) returns (reloaded: GeoMap)
    modifies page.storage
    ensures fresh(reloaded) && reloaded.storage == page.storage
    ensures reloaded.markers == page.markers
  {
    page.SaveMarkers();
    reloaded := new GeoMap.Mount(page.storage);
  }

  /** Deleting an earlier marker while the last one is being edited leaves the
      edit index past the end of the collection. */
  method DeleteWhileEditingExample(storage: Storage) returns (page: GeoMap)
    requires storage.saved == None
    ensures fresh(page) && page.Valid()
    ensures page.editingMarker == Some(2) && |page.markers| == 2
  {
    page := new GeoMap.Mount(storage);
    page.StartEditing(2);
    page.DeleteMarker(0);
  }
}
