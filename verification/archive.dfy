/** The in-memory copy of the archive: `{name: epub.read(name) for name in epub.namelist()}`.
    Decompression is not modelled; an archive is the list of its central-directory entries. */
module Archive {

  type byte = b: int | 0 <= b < 256

  datatype Entry = Entry(name: string, data: seq<byte>)

  /** True when no entry after position `i` carries the same name as entry `i`. */
  predicate LastWithName(entries: seq<Entry>, i: nat)
    requires i < |entries|
  {
    forall j :: i < j < |entries| ==> entries[j].name != entries[i].name
  }

  /** The names that occur in `entries`. */
  function Names(entries: seq<Entry>): set<string>
  {
    set i | 0 <= i < |entries| :: entries[i].name
  }

  /** The name-to-bytes map. `ZipFile.read(name)` looks a name up in a table that a later entry
      with the same name overwrites, so for a repeated name the last entry's bytes are kept. */
  function FilesOf(entries: seq<Entry>): (files: map<string, seq<byte>>)
    ensures files.Keys == Names(entries)
    ensures forall i :: 0 <= i < |entries| && LastWithName(entries, i) ==> files[entries[i].name] == entries[i].data
    decreases |entries|
  {
    if entries == [] then map[]
    else
      var n := |entries| - 1;
      var files := FilesOf(entries[..n]);
      AppendEntry(entries[..n], entries[n], files);
      assert entries[..n] + [entries[n]] == entries;
      files[entries[n].name := entries[n].data]
  }

  /** Adding one entry at the end: its name joins the keys and its bytes win for that name. */
  lemma AppendEntry(prefix: seq<Entry>, last: Entry, files: map<string, seq<byte>>)
    requires files.Keys == Names(prefix)
    requires forall i :: 0 <= i < |prefix| && LastWithName(prefix, i) ==> files[prefix[i].name] == prefix[i].data
    ensures var entries := prefix + [last];
      var r := files[last.name := last.data];
      && r.Keys == Names(entries)
      && forall i :: 0 <= i < |entries| && LastWithName(entries, i) ==> r[entries[i].name] == entries[i].data
  {
    var entries := prefix + [last];
    var r := files[last.name := last.data];
    var n := |prefix|;
    assert Names(entries) == Names(prefix) + {last.name} by {
      assert forall i :: 0 <= i < n ==> entries[i] == prefix[i];
      assert entries[n] == last;
    }
    forall i | 0 <= i < |entries| && LastWithName(entries, i)
      ensures r[entries[i].name] == entries[i].data
    {
      if i < n {
        assert entries[n].name != entries[i].name;
        assert entries[i] == prefix[i];
        assert LastWithName(prefix, i) by {
          forall j | i < j < n ensures prefix[j].name != prefix[i].name {
            assert entries[j] == prefix[j];
          }
        }
      }
    }
  }
}
