/**
 * MemStorage: the in-memory document store. Identifiers come from the
 * caller (a fresh one per create) and `new Date()` is a logical clock that
 * ticks once per call. The ghost `log` records every write to the map, so
 * that properties of a whole processing run can be stated over it.
 */
module Storage {
  import opened Wrappers
  import opened Schema

  /** One write to the map: `set(id, doc)` or `delete(id)`. */
  datatype Write = Put(id: string, doc: Document) | Remove(id: string)

  /** JavaScript's `value || fallback` for an optional string: absent and "" are falsy. */
  function OrElse(value: Option<string>, fallback: Option<string>): Option<string>
  {
    if value.Some? && value.value != "" then value else fallback
  }

  /** The record createDocument builds from the insert shape, its id and the current time. */
  function NewRecord(insert: InsertDocument, id: string, now: int): (d: Document)
    ensures d.id == id && d.createdAt == now && d.updatedAt == now
    ensures d.processingStatus != "" && d.redactedPath != Some("")
  {
    Document(id, insert.filename, insert.originalPath, OrElse(insert.redactedPath, None),
             insert.fileType, insert.fileSize,
             OrElse(insert.processingStatus, Some(DefaultStatus)).value,
             insert.detectedSensitiveData, now, now)
  }

  /**
   * A new record carries the given id and one timestamp for both
   * createdAt and updatedAt; a missing or empty redactedPath becomes null, a
   * missing or empty processingStatus becomes "pending", and the other
   * fields are copied.
   */
  lemma NewRecordDefaults(insert: InsertDocument, id: string, now: int)
    ensures var d := NewRecord(insert, id, now);
      && d.id == id && d.createdAt == d.updatedAt == now
      && (d.redactedPath.None? <==> insert.redactedPath.None? || insert.redactedPath == Some(""))
      && (d.redactedPath.Some? ==> d.redactedPath == insert.redactedPath)
      && (d.processingStatus == DefaultStatus <==>
            insert.processingStatus.None? || insert.processingStatus.value in {"", DefaultStatus})
      && (insert.processingStatus.Some? && insert.processingStatus.value != "" ==>
            d.processingStatus == insert.processingStatus.value)
      && d.detectedSensitiveData == insert.detectedSensitiveData
      && d.filename == insert.filename && d.originalPath == insert.originalPath
      && d.fileType == insert.fileType && d.fileSize == insert.fileSize
  {
  }

  class MemStorage {
    var documents: map<string, Document>
    var clock: nat
    ghost var log: seq<Write>

    /** Every record is stored under its own id and was last written no later than now. */
    ghost predicate Valid()
      reads this
    {
      forall id <- documents :: documents[id].id == id && documents[id].updatedAt <= clock
    }

    constructor()
      ensures Valid() && documents == map[] && clock == 0 && log == []
    {
      documents := map[];
      clock := 0;
      log := [];
    }

    /** `new Date()`. */
    method Now() returns (now: nat)
      modifies this
      ensures now == clock == old(clock) + 1
      ensures documents == old(documents) && log == old(log)
    {
      clock := clock + 1;
      now := clock;
    }

    /** createDocument, with the fresh id `randomUUID()` would return. */
    method CreateDocument(insert: InsertDocument, id: string) returns (doc: Document)
      requires Valid() && id !in documents
      modifies this
      ensures Valid()
      ensures clock == old(clock) + 1 && doc == NewRecord(insert, id, clock)
      ensures documents == old(documents)[id := doc]
      ensures log == old(log) + [Put(id, doc)]
    {
      var now := Now();
      doc := NewRecord(insert, id, now);
      documents := documents[id := doc];
      log := log + [Put(id, doc)];
    }

    /** getDocument: the stored record, or undefined; nothing changes. */
    method GetDocument(id: string) returns (doc: Option<Document>)
      ensures doc.Some? <==> id in documents
      ensures doc.Some? ==> doc.value == documents[id]
    {
      if id in documents {
        return Some(documents[id]);
      }
      return None;
    }

    /** updateDocument: the stored record overwritten by the patch, stamped now. */
    method UpdateDocument(id: string, patch: Patch) returns (doc: Option<Document>)
      requires Valid()
      modifies this
      ensures patch.id.None? || patch.id == Some(id) ==> Valid()
      ensures id !in old(documents) ==>
        doc.None? && documents == old(documents) && clock == old(clock) && log == old(log)
      ensures id in old(documents) ==>
        && clock == old(clock) + 1
        && doc == Some(ApplyPatch(old(documents)[id], patch, clock))
        && documents == old(documents)[id := doc.value]
        && log == old(log) + [Put(id, doc.value)]
    {
      if id !in documents {
        return None;
      }
      var current := documents[id];
      var now := Now();
      var updated := ApplyPatch(current, patch, now);
      documents := documents[id := updated];
      log := log + [Put(id, updated)];
      doc := Some(updated);
    }

    /** deleteDocument: true exactly when the id was present; afterwards it is absent. */
    method DeleteDocument(id: string) returns (deleted: bool)
      requires Valid()
      modifies this
      ensures Valid()
      ensures deleted <==> id in old(documents)
      ensures documents == old(documents) - {id} && clock == old(clock)
      ensures log == old(log) + if deleted then [Remove(id)] else []
    {
      deleted := id in documents;
      documents := documents - {id};
      if deleted {
        log := log + [Remove(id)];
      }
    }

    /** updateProcessingStatus: only the stage name is stored; progress, message and error are dropped. */
    method UpdateProcessingStatus(id: string, status: ProcessingStatus)
      requires Valid()
      modifies this
      ensures Valid()
      ensures id !in old(documents) ==> documents == old(documents) && clock == old(clock) && log == old(log)
      ensures id in old(documents) ==>
        var doc := ApplyPatch(old(documents)[id], StatusPatch(status.stage), clock);
        && clock == old(clock) + 1
        && documents == old(documents)[id := doc]
        && log == old(log) + [Put(id, doc)]
    {
      if id in documents {
        var _ := UpdateDocument(id, StatusPatch(status.stage));
      }
    }

    /** updateDetectedData: only detectedSensitiveData changes. */
    method UpdateDetectedData(id: string, data: SensitiveDataDetection)
      requires Valid()
      modifies this
      ensures Valid()
      ensures id !in old(documents) ==> documents == old(documents) && clock == old(clock) && log == old(log)
      ensures id in old(documents) ==>
        var doc := old(documents)[id].(detectedSensitiveData := Some(data), updatedAt := clock);
        && clock == old(clock) + 1
        && documents == old(documents)[id := doc]
        && log == old(log) + [Put(id, doc)]
    {
      if id in documents {
        var _ := UpdateDocument(id, DetectedPatch(data));
      }
    }
  }

  /** The patch updateDetectedData issues. */
  function DetectedPatch(data: SensitiveDataDetection): (p: Patch)
    ensures p.detectedSensitiveData == Some(Some(data))
    ensures p.id.None? && p.processingStatus.None? && p.redactedPath.None?
  {
    EmptyPatch.(detectedSensitiveData := Some(Some(data)))
  }

  /**
   * A status update changes the stored stage name and the timestamp and
   * nothing else; in particular redactedPath and the detection result stay.
   */
  lemma StatusUpdateOnlyStage(d: Document, stage: Stage, now: int)
    ensures ApplyPatch(d, StatusPatch(stage), now) == d.(processingStatus := StageName(stage), updatedAt := now)
  {
  }

  /** A detection update changes only the detection result and the timestamp. */
  lemma DetectedUpdateOnlyData(d: Document, data: SensitiveDataDetection, now: int)
    ensures ApplyPatch(d, DetectedPatch(data), now) == d.(detectedSensitiveData := Some(data), updatedAt := now)
  {
  }
}
