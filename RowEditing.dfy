/**
 * The modal dialog that edits or deletes one row: one text field per column,
 * and Save, Delete and Cancel buttons. Its outcome is left in `result` (the
 * saved values) or `deleteFlag` for the double-click handler to act on.
 */
module RowEditing {
  import opened Wrappers
  import opened Strings
  import opened Cells

  /**
   * What a Tk text field gives back stripped: `get("1.0", END)` adds a
   * newline after the contents, which `strip()` then removes with the rest
   * of the white space at either end.
   */
  function FieldValue(contents: string): (r: string)
    ensures r == Strip(contents)
  {
    StripNewline(contents);
    Strip(contents + "\n")
  }

  /**
   * What Save stores: each of the first `count` fields with white space
   * stripped from both ends. With fewer fields than columns, looking up the
   * missing field raises AttributeError and nothing is stored (None).
   */
  function SavedFields(texts: seq<string>, count: nat): (r: Option<seq<string>>)
    ensures r.Some? <==> |texts| >= count
    ensures r.Some? ==> |r.value| == count
    ensures r.Some? ==> forall i :: 0 <= i < count ==> r.value[i] == Strip(texts[i]) && Trimmed(r.value[i])
  {
    if |texts| < count then None
    else Some(seq(count, i requires 0 <= i < count => FieldValue(texts[i])))
  }

  class RowEditor {
    /** The header, one label per column. */
    const columns: seq<Cell>
    /** The contents of the text fields, one per (column, value) pair. */
    var texts: seq<string>
    var result: Option<seq<string>>
    var deleteFlag: bool
    /** The dialog window still exists. */
    var open: bool

    /** Opens the dialog: one field per column that has a value, holding that value. */
    constructor (rowData: seq<string>, columns: seq<Cell>)
      ensures this.columns == columns
      ensures |texts| == if |rowData| <= |columns| then |rowData| else |columns|
      ensures forall i :: 0 <= i < |texts| ==> texts[i] == rowData[i]
      ensures result == None && !deleteFlag && open
    {
      this.columns := columns;
      texts := if |rowData| <= |columns| then rowData else rowData[..|columns|];
      result := None;
      deleteFlag := false;
      open := true;
    }

    /** The user replaces the contents of field `i`. */
    method Type(i: nat, text: string)
      requires open && i < |texts|
      modifies this
      ensures texts == old(texts)[i := text]
      ensures result == old(result) && deleteFlag == old(deleteFlag) && open
    {
      texts := texts[i := text];
    }

    /** The Save button: store the stripped fields and close, or stay open if a field is missing. */
    method Save()
      requires open
      modifies this
      ensures texts == old(texts) && deleteFlag == old(deleteFlag)
      ensures SavedFields(old(texts), |columns|).Some? ==>
        result == SavedFields(old(texts), |columns|) && !open
      ensures SavedFields(old(texts), |columns|).None? ==> result == old(result) && open
    {
      var saved := SavedFields(texts, |columns|);
      if saved.Some? {
        result := saved;
        open := false;
      }
    }

    /** The Delete button: only a confirmed deletion sets the flag and closes the dialog. */
    method Delete(confirmed: bool)
      requires open
      modifies this
      ensures texts == old(texts) && result == old(result)
      ensures confirmed ==> deleteFlag && !open
      ensures !confirmed ==> deleteFlag == old(deleteFlag) && open
    {
      if confirmed {
        deleteFlag := true;
        open := false;
      }
    }

    /** The Cancel button: close with nothing stored. */
    method Cancel()
      requires open
      modifies this
      ensures texts == old(texts) && result == old(result) && deleteFlag == old(deleteFlag)
      ensures !open
    {
      open := false;
    }
  }
}
