/** Optional values, for the lookups that may produce nothing. */
module Wrappers {

  datatype Option<+T> = None | Some(value: T)

  /** A value or the error message that stopped its computation. */
  datatype Result<+T> = Ok(value: T) | Err(error: string)
}

/**
  The values the owner-reference reconciler reads, rewrites and reports:
  owner references, live owners, exported documents and report rows.
*/
module Objects {
  import opened Wrappers

  /** What names a candidate live owner: everything of a reference but its uid. */
  datatype Descriptor = Descriptor(apiVersion: string, kind: string, name: string)

  /** One entry of an exported manifest's `metadata.ownerReferences`. */
  datatype OwnerRef = OwnerRef(kind: string, apiVersion: string, name: string, uid: string)
  {
    function Describe(): Descriptor
    {
      Descriptor(apiVersion, kind, name)
    }

    /** Same owner identity: only the uid may differ. */
    predicate SameOwner(other: OwnerRef)
    {
      kind == other.kind && apiVersion == other.apiVersion && name == other.name
    }
  }

  /** The live owner object as far as the reconciler looks at it: its current uid. */
  datatype Owner = Owner(uid: string)

  /**
    A decoded exported manifest. `body` stands for everything the reconciler
    never looks at; it is carried through unchanged.
  */
  datatype Document = Document(namespace: string, ownerReferences: seq<OwnerRef>, body: string)

  /** One line of the summary table: File, Owner Kind, Owner Name, UID From, UID To. */
  datatype Row = Row(file: string, ownerKind: string, ownerName: string, uidFrom: string, uidTo: string)
  {
    /** The row's cells in the table's column order. */
    function Cells(): seq<string>
    {
      [file, ownerKind, ownerName, uidFrom, uidTo]
    }
  }

  /** Reads a table line back into a row: five cells in column order. */
  function RowOf(cells: seq<string>): Option<Row>
  {
    if |cells| == 5 then Some(Row(cells[0], cells[1], cells[2], cells[3], cells[4])) else None
  }

  const NotFoundMarker: string := "<NOT FOUND>"
  const ErrorMarker: string := "<ERROR>"

  /** The column titles of the summary table. */
  const TableHeader: seq<string> := ["File", "Owner Kind", "Owner Name", "UID From", "UID To"]

  /** Printed instead of the table when no row was collected. */
  const NoChangesNotice: string := "No changed owner references found"
}
