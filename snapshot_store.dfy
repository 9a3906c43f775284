/**
 * The `json-data` directory: one converted snapshot file per stamp. A file's
 * content is not modelled, only which stamps have one; a stamp is present
 * when `json-data/<stamp>.json` exists.
 */
module SnapshotStore {
  import opened TimeGrid

  class JsonStore {
    /** The stamps whose `.json` file exists. */
    var keys: set<Stamp>

    constructor (initial: set<Stamp>)
      ensures keys == initial
    {
      keys := initial;
    }

    /** `checkPath('json-data/' + stamp + '.json', false)`; a failed `sendFile` reads the same way. */
    predicate Has(stamp: Stamp)
      reads this
    {
      stamp in keys
    }

    /** The converter writing `json-data/<stamp>.json`; no other file changes. */
    method Write(stamp: Stamp)
      modifies this
      ensures keys == old(keys) + {stamp}
      ensures Has(stamp)
    {
      keys := keys + {stamp};
    }
  }
}
