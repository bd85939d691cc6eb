/**
 * The SQLite database file `./tmp/db.sqlite`: whether it exists and the tables
 * it holds. The loader creates it and replaces tables in it; the SQL tool reads
 * it and, for statements other than SELECT, changes it.
 */
module Database {
  import opened Frames

  class SqliteDb {
    /** `os.path.exists('./tmp/db.sqlite')`. */
    var present: bool
    /** The tables, by name. */
    var tables: map<string, Frame>

    constructor (present: bool, tables: map<string, Frame>)
      ensures this.present == present && this.tables == tables
    {
      this.present := present;
      this.tables := tables;
    }
  }
}
