/** `initializeDatabase`: `openDB("myDatabase", 1, { upgrade })`.

    The upgrade callback runs only when the database does not exist yet; it
    creates the `records` store (key path `id`, auto-increment, indexes on
    `page` and `name`) and the `patientRecords` store (key path `id`,
    auto-increment, indexes on `createdAt` and `name`). Opening an existing
    version-1 database hands it back untouched, and opening a newer one fails
    with a version error. */
module Database {
  import Records
  import Patients

  /** Versions of an existing database start at 1. */
  type Version = v: int | v >= 1 witness 1

  const SchemaVersion: Version := 1

  datatype Db =
    | Missing
    | Db(version: Version, records: Records.RecordStore, patients: Patients.PatientStore)

  datatype Opened = Opened(db: Db) | VersionError(stored: Version)

  /** The database that the upgrade callback leaves behind: both stores empty,
      their key generators at 1. */
  const Fresh: Db := Db(SchemaVersion, Records.EmptyStore, Patients.EmptyPatientStore)

  /** Opening yields version 1 with well-formed, empty stores when nothing
      existed, the same database when version 1 existed, and a version error
      when a newer version exists. */
  function InitializeDatabase(current: Db): (r: Opened)
    ensures r.Opened? <==> current.Missing? || current.version == SchemaVersion
    ensures r.Opened? ==> r.db.Db? && r.db.version == SchemaVersion
    ensures current.Missing? ==>
              && r.Opened?
              && r.db.records.rows == [] && Records.Valid(r.db.records)
              && r.db.patients.indexed == [] && Patients.Valid(r.db.patients)
    ensures current.Db? && r.Opened? ==> r.db == current
  {
    match current
    case Missing => Opened(Fresh)
    case Db(version, _, _) =>
      if version == SchemaVersion then Opened(current) else VersionError(version)
  }

  /** Opening is idempotent: opening what an open returned gives it back unchanged. */
  lemma OpenTwiceIsOpenOnce(current: Db)
    ensures InitializeDatabase(current).Opened? ==>
              InitializeDatabase(InitializeDatabase(current).db) == InitializeDatabase(current)
  {
  }
}
