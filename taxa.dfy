/**
 * The taxonomic checklist (World Checklist of Vascular Plants, WCVP) as the
 * name resolution engine sees it, and the accepted-name information it
 * attaches to a submitted name or identifier.
 */
module Taxa {
  import opened Base

  /**
   * One checklist row: its own identifier, name, taxonomic status and rank,
   * plus the accepted taxon (for synonyms) and the parent taxon, either of
   * which may be missing.
   */
  datatype ChecklistRecord = ChecklistRecord(
    kewId: string,
    taxonName: string,
    status: string,
    rank: string,
    acceptedKewId: Cell,
    acceptedName: Cell,
    parentKewId: Cell,
    parentName: Cell)

  type Checklist = seq<ChecklistRecord>

  /** The five accepted-information columns; any of them may be missing. */
  datatype AcceptedInfo = AcceptedInfo(
    name: Cell,
    id: Cell,
    rank: Cell,
    species: Cell,
    speciesId: Cell)

  /** The all-missing answer given when a lookup finds no unique record. */
  const NanInfo := AcceptedInfo(None, None, None, None, None)
}
