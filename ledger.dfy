/** The bad-encoding ledger (`BadEncodingDatabase` in reencode.py): a table
    keyed by (content hash, CRF, preset) that remembers the output size of
    encodes that did not shrink their input. The SQLite store is modelled as
    an in-memory map and SHA-1 as an arbitrary function of the bytes. */
module Ledger {
  import opened Wrappers
  import opened Files

  type Digest = seq<byte>

  /** The primary key of `bad_encodings`. */
  datatype Key = Key(hash: Digest, crf: int, preset: string)

  datatype LedgerError = DuplicateKey

  /** `SELECT output_bytes ... WHERE hash == ? AND crf == ? AND preset == ?`. */
  function Lookup(rows: map<Key, nat>, k: Key): (r: Option<nat>)
    ensures r.None? <==> k !in rows
  {
    if k in rows then Some(rows[k]) else None
  }

  /** `INSERT` under the primary key: a row whose key is taken violates it. */
  function Inserted(rows: map<Key, nat>, k: Key, outputBytes: nat): (r: Result<map<Key, nat>, LedgerError>)
    ensures r.Ok? <==> k !in rows
    ensures r.Ok? ==> r.value.Keys == rows.Keys + {k}
  {
    if k in rows then Err(DuplicateKey) else Ok(rows[k := outputBytes])
  }

  /** Reading back after an insert: the inserted key yields exactly the
      inserted size and every other key what it yielded before. */
  lemma LookupAfterInsert(rows: map<Key, nat>, k: Key, outputBytes: nat, k': Key)
    requires k !in rows
    ensures Lookup(Inserted(rows, k, outputBytes).value, k') ==
      if k' == k then Some(outputBytes) else Lookup(rows, k')
  {
  }

  class BadEncodingDatabase {
    var rows: map<Key, nat>
    /** The digest `hash_file` computes from a file's bytes. */
    const hash: Content -> Digest

    /** Opening the store: its rows are what earlier runs recorded. */
    constructor (stored: map<Key, nat>, hash: Content -> Digest)
      ensures rows == stored && this.hash == hash
    {
      rows := stored;
      this.hash := hash;
    }

    /** The key of a file: computed from its bytes only, never its name. */
    function KeyOf(content: Content, crf: int, preset: string): Key {
      Key(hash(content), crf, preset)
    }

    /** `check(f, crf, preset)`. */
    method Check(content: Content, crf: int, preset: string) returns (r: Option<nat>)
      ensures r == Lookup(rows, KeyOf(content, crf, preset))
    {
      var k := KeyOf(content, crf, preset);
      r := if k in rows then Some(rows[k]) else None;
    }

    /** `insert(f, crf, preset, output_bytes)`. */
    method Insert(content: Content, crf: int, preset: string, outputBytes: nat) returns (r: Outcome<LedgerError>)
      modifies this
      ensures r.Pass? <==> KeyOf(content, crf, preset) !in old(rows)
      ensures r.Pass? ==> rows == old(rows)[KeyOf(content, crf, preset) := outputBytes]
      ensures r.Fail? ==> r.error == DuplicateKey && rows == old(rows)
    {
      var k := KeyOf(content, crf, preset);
      if k in rows {
        return Fail(DuplicateKey);
      }
      rows := rows[k := outputBytes];
      return Pass;
    }
  }
}
