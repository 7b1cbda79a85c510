/** `advisory_store.import_catalog` in its own form: statements that insert, delete and update rows one by
    one. Every INSERT demands that its primary, unique and foreign keys hold, so that the import verifies
    is the statement that no insert can break one. */
module AdvisoryStores {
  import opened Prelude
  import opened Catalogs
  import opened AdvisoryTables

  class AdvisoryStore {
    var advisories: map<AdvisoryId, AdvisoryRow>
    var aliases: set<AliasRow>
    var references: set<ReferenceRow>
    var affected: set<AffectedRow>
    var ranges: set<RangeRow>
    var imports: seq<ImportRow>

    ghost function Contents(): Tables
      reads this
    {
      Tables(advisories, aliases, references, affected, ranges, imports)
    }

    constructor ()
      ensures Contents() == EmptyTables
    {
      advisories, aliases, references, affected, ranges, imports := map[], {}, {}, {}, {}, [];
    }

    method InsertImport(text: Text, row: ImportRow) returns (id: nat)
      requires forall i :: 0 <= i < |imports| ==>
        !(text.lower(imports[i].source) == text.lower(row.source) && imports[i].version == row.version && imports[i].checksum == row.checksum)
      modifies this`imports
      ensures id == |old(imports)| && imports == old(imports) + [row]
    {
      id := |imports|;
      imports := imports + [row];
    }

    method InsertAlias(row: AliasRow)
      requires row.advisory in advisories && row !in aliases
      modifies this`aliases
      ensures aliases == old(aliases) + {row}
    {
      aliases := aliases + {row};
    }

    method InsertReference(row: ReferenceRow)
      requires row.advisory in advisories
      requires forall x :: x in references ==> !(x.advisory == row.advisory && x.ordinal == row.ordinal)
      modifies this`references
      ensures references == old(references) + {row}
    {
      references := references + {row};
    }

    method InsertAffected(row: AffectedRow)
      requires row.advisory in advisories
      requires forall x :: x in affected ==> x.id != row.id
      modifies this`affected
      ensures affected == old(affected) + {row}
    {
      affected := affected + {row};
    }

    method InsertRange(row: RangeRow)
      requires exists x :: x in affected && x.id == row.affected
      requires forall x :: x in ranges ==> x.id != row.id && !(x.affected == row.affected && x.ordinal == row.ordinal)
      modifies this`ranges
      ensures ranges == old(ranges) + {row}
    {
      ranges := ranges + {row};
    }

    method InsertAliases(a: AdvisoryId, record: Record)
      requires a in advisories && ValidRecord(record)
      requires forall x :: x in aliases ==> x.advisory != a
      modifies this`aliases
      ensures aliases == old(aliases) + AliasRows(a, record)
    {
      for i := 0 to |record.aliases|
        invariant aliases == old(aliases) + (set k | 0 <= k < i :: AliasRow(a, record.aliases[k]))
      {
        InsertAlias(AliasRow(a, record.aliases[i]));
      }
    }

    method InsertReferences(a: AdvisoryId, record: Record)
      requires a in advisories
      requires forall x :: x in references ==> x.advisory != a
      modifies this`references
      ensures references == old(references) + ReferenceRows(a, record)
    {
      for i := 0 to |record.references|
        invariant references == old(references) + (set k | 0 <= k < i :: ReferenceRow(a, k, record.references[k]))
      {
        InsertReference(ReferenceRow(a, i, record.references[i]));
      }
    }

    method InsertComponents(text: Text, a: AdvisoryId, record: Record)
      requires a in advisories
      requires forall x :: x in affected ==> x.id.advisory != a
      requires forall x :: x in ranges ==> x.affected.advisory != a && x.id == RangeId(x.affected, x.ordinal)
      modifies this`affected, this`ranges
      ensures affected == old(affected) + AffectedRows(text, a, record, |record.affected|)
      ensures ranges == old(ranges) + RangeRows(text, a, record, |record.affected|)
    {
      for i := 0 to |record.affected|
        invariant affected == old(affected) + AffectedRows(text, a, record, i)
        invariant ranges == old(ranges) + RangeRows(text, a, record, i)
      {
        var row := AffectedRowAt(text, a, record, i);
        InsertAffected(row);
        assert affected == old(affected) + AffectedRows(text, a, record, i + 1);
        for j := 0 to |record.affected[i].ranges|
          invariant affected == old(affected) + AffectedRows(text, a, record, i + 1)
          invariant ranges == old(ranges) + RangeRows(text, a, record, i) + ComponentRanges(text, a, record, i, j)
        {
          assert row in affected;
          InsertRange(RangeRowAt(text, a, record, i, j));
        }
        RangeRowsStep(text, a, record, i);
      }
    }

    method DeleteChildren(a: AdvisoryId)
      modifies this
      ensures Contents() == WithoutChildren(old(Contents()), a)
    {
      aliases := set x | x in aliases && x.advisory != a;
      references := set x | x in references && x.advisory != a;
      var doomed := set x | x in affected && x.advisory == a :: x.id;
      affected := set x | x in affected && x.advisory != a;
      ranges := set x | x in ranges && x.affected !in doomed;
    }

    method ImportRecord(text: Text, catalog: Catalog, record: Record, importId: nat) returns (a: AdvisoryId)
      requires WellFormed(text, Contents()) && importId < |imports| && ValidRecord(record)
      modifies this
      ensures a == AdvisoryIdFor(text, catalog.sourceName, record.id)
      ensures Contents() == UpsertRecord(text, old(Contents()), catalog, record, importId)
      ensures imports == old(imports)
      ensures WellFormed(text, Contents())
    {
      a := AdvisoryIdFor(text, catalog.sourceName, record.id);
      UpsertRecordKeepsKeys(text, Contents(), catalog, record, importId);
      var row := if a in advisories
                 then advisories[a].(sourceVersion := catalog.sourceVersion, facts := record.facts, current := true,
                                     importId := importId, checksum := Sha256(record))
                 else AdvisoryRow(catalog.sourceName, record.id, catalog.sourceVersion, record.facts, true, importId, Sha256(record));
      advisories := advisories[a := row];
      CascadeReaches(text, old(Contents()), a);
      DeleteChildren(a);
      InsertAliases(a, record);
      InsertReferences(a, record);
      InsertComponents(text, a, record);
    }

    method RetireStale(text: Text, sourceName: string, importedIds: set<AdvisoryId>)
      modifies this`advisories
      ensures Contents() == Sweep(text, old(Contents()), sourceName, importedIds)
    {
      advisories := map a | a in advisories ::
        if IsStale(text, advisories[a], sourceName) && a !in importedIds
        then advisories[a].(current := false) else advisories[a];
    }

    method ImportRecords(text: Text, catalog: Catalog, importId: nat) returns (importedIds: set<AdvisoryId>)
      requires WellFormed(text, Contents()) && importId < |imports| && ValidCatalog(text, catalog)
      modifies this
      ensures Contents() == UpsertAll(text, old(Contents()), catalog, importId, |catalog.advisories|)
      ensures importedIds == CatalogIds(text, catalog) && imports == old(imports)
      ensures WellFormed(text, Contents())
    {
      hide WellFormed, UpsertRecord;
      importedIds := {};
      for i := 0 to |catalog.advisories|
        invariant WellFormed(text, Contents()) && imports == old(imports)
        invariant Contents() == UpsertAll(text, old(Contents()), catalog, importId, i)
        invariant importedIds == IdsOf(text, catalog.sourceName, catalog.advisories[..i])
      {
        var a := ImportRecord(text, catalog, catalog.advisories[i], importId);
        importedIds := importedIds + {a};
        IdsOfStep(text, catalog, i);
      }
      assert catalog.advisories[..|catalog.advisories|] == catalog.advisories;
    }

    /** `import_catalog`: the catalog argument is a validated model, as pydantic guarantees. */
    method ImportCatalog(text: Text, catalog: Catalog, checksum: Digest<Catalog>, reactivateExisting: bool)
      returns (importId: nat, duplicate: bool)
      requires WellFormed(text, Contents()) && ValidCatalog(text, catalog)
      modifies this
      ensures Contents() == Import(text, old(Contents()), catalog, checksum, reactivateExisting)
      ensures WellFormed(text, Contents())
      ensures duplicate <==> FindImport(text, old(imports), catalog, checksum).Some?
      ensures importId < |imports| && SameImport(text, imports[importId], catalog, checksum)
    {
      ImportKeepsKeys(text, Contents(), catalog, checksum, reactivateExisting);
      var existing := FindImport(text, imports, catalog, checksum);
      duplicate := existing.Some?;
      if existing.Some? && !reactivateExisting {
        return existing.value, true;
      }
      PrepareKeepsKeys(text, Contents(), catalog, checksum);
      if existing.Some? {
        importId := existing.value;
      } else {
        importId := InsertImport(text, ImportRowFor(catalog, checksum));
      }
      var importedIds := ImportRecords(text, catalog, importId);
      RetireStale(text, catalog.sourceName, importedIds);
    }
  }

  lemma IdsOfStep(text: Text, catalog: Catalog, i: nat)
    requires i < |catalog.advisories|
    ensures IdsOf(text, catalog.sourceName, catalog.advisories[..i + 1])
         == IdsOf(text, catalog.sourceName, catalog.advisories[..i]) + {AdvisoryIdFor(text, catalog.sourceName, catalog.advisories[i].id)}
  {
    var shorter, longer := catalog.advisories[..i], catalog.advisories[..i + 1];
    assert longer == shorter + [catalog.advisories[i]];
    forall x | x in IdsOf(text, catalog.sourceName, shorter) ensures x in IdsOf(text, catalog.sourceName, longer) {
      var k :| 0 <= k < i && x == AdvisoryIdFor(text, catalog.sourceName, shorter[k].id);
      assert longer[k] == shorter[k];
    }
    assert longer[i] == catalog.advisories[i];
  }

  lemma RangeRowsStep(text: Text, a: AdvisoryId, record: Record, i: nat)
    requires i < |record.affected|
    ensures RangeRows(text, a, record, i + 1)
         == RangeRows(text, a, record, i) + ComponentRanges(text, a, record, i, |record.affected[i].ranges|)
  {
    var longer := RangeRows(text, a, record, i + 1);
    var parts := RangeRows(text, a, record, i) + ComponentRanges(text, a, record, i, |record.affected[i].ranges|);
    forall x | x in longer ensures x in parts {
      var k, j :| 0 <= k < i + 1 && 0 <= j < |record.affected[k].ranges| && x == RangeRowAt(text, a, record, k, j);
      if k == i {
        assert x in ComponentRanges(text, a, record, i, |record.affected[i].ranges|);
      }
    }
  }

  /** The cascade removes exactly the ranges of the advisory's own components. */
  lemma CascadeReaches(text: Text, t: Tables, a: AdvisoryId)
    requires WellFormed(text, t)
    ensures forall x :: x in WithoutChildren(t, a).ranges <==> x in t.ranges && x.affected.advisory != a
  {
    forall x | x in t.ranges ensures x in WithoutChildren(t, a).ranges <==> x.affected.advisory != a {
      var y :| y in t.affected && y.id == x.affected;
      assert y.advisory == x.affected.advisory;
    }
  }
}
