/**
 * The add endpoint of the media-type-aware catalogue as a method of one
 * object holding the Books table: an upsert keyed on (title, author,
 * media type).
 */
module ResourceCatalog {
  import opened Resources

  /** What add_book did, with the copy count it produced. */
  datatype AddOutcome =
    | DigitalExists(id: int, copies: int)                   // digital duplicate: nothing written
    | CopiesAdded(id: int, increment: int, newTotal: int)   // physical duplicate: count raised
    | Created(id: int, copies: int)                         // new item: one row inserted

  class Catalog {
    var rows: seq<Resource>
    /** The id the next inserted row receives. */
    var nextId: int

    ghost predicate Valid()
      reads this
    {
      KeysUnique(rows) && IdsUnique(rows) &&
      forall i :: 0 <= i < |rows| ==> rows[i].id < nextId
    }

    constructor (rows: seq<Resource>, nextId: int)
      requires KeysUnique(rows) && IdsUnique(rows)
      requires forall i :: 0 <= i < |rows| ==> rows[i].id < nextId
      ensures Valid() && this.rows == rows && this.nextId == nextId
    {
      this.rows := rows;
      this.nextId := nextId;
    }

    /**
     * POST /api/books/: a digital duplicate changes nothing; a physical
     * duplicate gets its count raised by the supplied count (1 when absent
     * or zero); anything else is appended with its initial copy count.
     */
    method AddBook(req: ResourceRequest) returns (o: AddOutcome)
      requires Valid()
      modifies this
      ensures Valid()
      ensures rows == Upserted(old(rows), old(nextId), req)
      ensures FindResource(old(rows), req).None? ==>
        o == Created(old(nextId), InitialCopies(req)) &&
        rows == old(rows) + [NewResource(old(nextId), req)] && nextId == old(nextId) + 1
      ensures FindResource(old(rows), req).Some? && IsDigital(req.mediaType) ==>
        var k := FindResource(old(rows), req).value;
        o == DigitalExists(old(rows)[k].id, old(rows)[k].availableCopies) &&
        rows == old(rows) && nextId == old(nextId)
      ensures FindResource(old(rows), req).Some? && !IsDigital(req.mediaType) ==>
        var k := FindResource(old(rows), req).value;
        var total := old(rows)[k].availableCopies + CopyIncrement(req);
        o == CopiesAdded(old(rows)[k].id, CopyIncrement(req), total) &&
        rows == old(rows)[k := old(rows)[k].(availableCopies := total)] && nextId == old(nextId)
    {
      UpsertKeepsKeysUnique(rows, nextId, req);
      var found := FindResource(rows, req);
      if found.Some? {
        var k := found.value;
        if IsDigital(req.mediaType) {
          return DigitalExists(rows[k].id, rows[k].availableCopies);
        }
        var increment := CopyIncrement(req);
        var id := rows[k].id;
        var updated := rows;
        var i := 0;
        while i < |updated|
          invariant 0 <= i <= |updated| == |rows|
          invariant forall j :: 0 <= j < i ==> updated[j] == CopiesAddedById(rows, id, increment)[j]
          invariant forall j :: i <= j < |updated| ==> updated[j] == rows[j]
        {
          if updated[i].id == id {
            updated := updated[i := updated[i].(availableCopies := updated[i].availableCopies + increment)];
          }
          i := i + 1;
        }
        CopiesAddedByIdIsPointUpdate(rows, k, increment);
        o := CopiesAdded(id, increment, updated[k].availableCopies);
        rows := updated;
        return;
      }
      var copies := InitialCopies(req);
      rows := rows + [Resource(nextId, req.title, req.author, req.genre, req.mediaType, copies, req.image)];
      o := Created(nextId, copies);
      nextId := nextId + 1;
    }
  }
}
