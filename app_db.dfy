/**
 * Data/AppDbContext.cs: the tables the integration reads and writes, in
 * storage order. Only the three tables with behaviour are kept; saving is
 * immediate. `deviceSequence` is SQLite's `sqlite_sequence` entry for the
 * Devices table, whose Id column is AUTOINCREMENT: the largest id the table
 * has ever held (0 before the first insert).
 */
module Database {
  import opened DataModels

  /** No two devices share a primary key. */
  predicate UniqueIds(devices: seq<Device>) {
    forall i, j :: 0 <= i < j < |devices| ==> devices[i].id != devices[j].id
  }

  class AppDb {
    var settings: seq<SettingRow>
    var devices: seq<Device>
    var deviceSequence: nat
    var syncHistories: seq<SyncHistory>

    constructor(settings: seq<SettingRow>, devices: seq<Device>, deviceSequence: nat, syncHistories: seq<SyncHistory>)
      ensures this.settings == settings && this.devices == devices && this.syncHistories == syncHistories
      ensures this.deviceSequence == deviceSequence
    {
      this.settings := settings;
      this.devices := devices;
      this.deviceSequence := deviceSequence;
      this.syncHistories := syncHistories;
    }

    /** What the database guarantees of the Devices table: a primary key, and no id above the sequence. */
    predicate DevicesValid()
      reads this
    {
      UniqueIds(devices) && forall i :: 0 <= i < |devices| ==> devices[i].id <= deviceSequence
    }
  }
}
