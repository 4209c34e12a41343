/** The editor page's state machine (app/page.tsx, component `Home`): the
    screen being edited, the selected node, the dirty flag, and the
    session-storage slot the page persists to. */
module Page {
  import opened Types
  import Utils

  const ImportSucceededAlert := "Screen imported successfully!"
  const ImportFailedPrefix := "Failed to import JSON: "

  class Editor {
    var screen: Option<Screen>
    var selectedId: Option<string>
    var isDirty: bool
    /** The session-storage slot "bloom-screen". */
    var stored: Option<string>
    /** `exportToJSON`, left uninterpreted. */
    const exportToJSON: Screen -> string
    /** `JSON.parse`, left uninterpreted; `None` is a syntax error. */
    const parse: string -> Option<Screen>

    /** A fresh page: nothing loaded, nothing selected, not dirty; the
        session slot holds whatever an earlier page left there. */
    constructor (saved: Option<string>, exportToJSON: Screen -> string, parse: string -> Option<Screen>)
      ensures screen == None && selectedId == None && !isDirty && stored == saved
      ensures this.exportToJSON == exportToJSON && this.parse == parse
    {
      screen := None;
      selectedId := None;
      isDirty := false;
      stored := saved;
      this.exportToJSON := exportToJSON;
      this.parse := parse;
    }

    /** The mount effect: a non-empty saved text that parses becomes the
        screen; a parse failure is only logged. */
    method Load()
      modifies this`screen
      ensures Truthy(stored) && parse(stored.value).Some? ==> screen == parse(stored.value)
      ensures !(Truthy(stored) && parse(stored.value).Some?) ==> screen == old(screen)
    {
      if Truthy(stored) {
        match Utils.ImportFromJSON(parse, stored.value)
        case Ok(s) => screen := Some(s);
        case Err(_) =>
      }
    }

    /** The node the style panel shows: none while no (non-empty) id is
        selected or no screen is loaded, otherwise the first node in pre-order
        carrying the selected id. */
    function SelectedComponent(): (r: Option<Node>)
      reads this
      ensures !Truthy(selectedId) || screen.None? ==> r.None?
      ensures Truthy(selectedId) && screen.Some? ==>
        r == Utils.FindComponentById(screen.value.components, selectedId.value)
      ensures Truthy(selectedId) && screen.Some? ==>
        r == Utils.FirstWithId(Utils.PreOrder(screen.value.components), selectedId.value)
      ensures r.None? <==>
        !Truthy(selectedId) || screen.None? || selectedId.value !in Utils.Ids(screen.value.components)
    {
      if !Truthy(selectedId) || screen.None? then None
      else
        Utils.FindIsFirstInPreOrder(screen.value.components, selectedId.value);
        Utils.FindComponentById(screen.value.components, selectedId.value)
    }

    /** `setSelectedComponentId`, as the tree and the preview call it. */
    method Select(id: string)
      modifies this`selectedId
      ensures selectedId == Some(id)
    {
      selectedId := Some(id);
    }

    /** `handleStyleChange`: with a selected id and a screen, only the
        components change, by the mutator, and the page becomes dirty;
        otherwise nothing changes. */
    method StyleChange(upd: Styles)
      modifies this`screen, this`isDirty
      ensures !Truthy(selectedId) || old(screen).None? ==> screen == old(screen) && isDirty == old(isDirty)
      ensures Truthy(selectedId) && old(screen).Some? ==>
        && screen.Some?
        && screen.value.id == old(screen).value.id
        && screen.value.name == old(screen).value.name
        && screen.value.metadata == old(screen).value.metadata
        && screen.value.components
           == Utils.UpdateComponentStyle(old(screen).value.components, selectedId.value, upd)
        && isDirty
      ensures old(SelectedComponent()).None? ==> SelectedComponent().None?
      ensures old(SelectedComponent()).Some? ==>
        SelectedComponent()
        == Some(old(SelectedComponent()).value.(styles := Utils.MergeStyles(old(SelectedComponent()).value.styles, upd)))
    {
      if !Truthy(selectedId) || screen.None? {
        return;
      }
      var prev := screen.value;
      Utils.FindAfterUpdate(prev.components, selectedId.value, upd);
      screen := Some(prev.(components := Utils.UpdateComponentStyle(prev.components, selectedId.value, upd)));
      isDirty := true;
    }

    /** The file reader's load handler of `handleImportJSON`: no file does
        nothing; text that parses replaces the screen, clears the selection
        and marks the page dirty; otherwise only the failure is reported.
        The returned text is what the page alerts. */
    method Import(file: Option<string>) returns (alert: Option<string>)
      modifies this`screen, this`selectedId, this`isDirty
      ensures file.None? ==>
        alert.None? && screen == old(screen) && selectedId == old(selectedId) && isDirty == old(isDirty)
      ensures file.Some? && parse(file.value).Some? ==>
        && screen == parse(file.value) && selectedId.None? && isDirty
        && alert == Some(ImportSucceededAlert)
      ensures file.Some? && parse(file.value).None? ==>
        && screen == old(screen) && selectedId == old(selectedId) && isDirty == old(isDirty)
        && alert == Some(ImportFailedPrefix + Utils.InvalidJsonFormat)
    {
      if file.None? {
        return None;
      }
      match Utils.ImportFromJSON(parse, file.value)
      case Ok(imported) =>
        screen := Some(imported);
        selectedId := None;
        isDirty := true;
        alert := Some(ImportSucceededAlert);
      case Err(message) =>
        alert := Some(ImportFailedPrefix + message);
    }

    /** The save effect: a dirty page with a screen writes the exported screen
        to the session slot and becomes clean; otherwise nothing changes. */
    method Persist()
      modifies this`stored, this`isDirty
      ensures old(isDirty) && screen.Some? ==> stored == Some(exportToJSON(screen.value)) && !isDirty
      ensures !(old(isDirty) && screen.Some?) ==> stored == old(stored) && isDirty == old(isDirty)
    {
      if isDirty && screen.Some? {
        stored := Some(exportToJSON(screen.value));
        isDirty := false;
      }
    }
  }
}
