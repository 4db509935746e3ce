/** The persistent key/value store of store.go: a diskv directory seen as a
    map from keys to the bytes of their files. JSON marshalling and the disk
    itself are outside the model: the outcome of `json.MarshalIndent` and of
    the disk write are passed in, and unmarshalling is a function given by
    the caller. An error is `Some(message)`, Go's nil error is `None`. */
module Store {
  import opened Wrappers
  import opened Bytes

  class Store {
    var files: map<string, seq<byte>>

    /** `NewStore(dir)` over a directory that already holds `initial`. */
    constructor (initial: map<string, seq<byte>>)
      ensures files == initial
    {
      files := initial;
    }

    /** `Diskv.Erase`: the key's file is removed; a missing key is ignored here,
        as `PutMarshal` ignores the error it returns. */
    method Erase(key: string)
      modifies this
      ensures files == old(files) - {key}
    {
      files := files - {key};
    }

    /** `Diskv.Write`; `failure` is what the disk reports. A failed write leaves
        no file behind. */
    method Write(key: string, val: seq<byte>, failure: Option<string>) returns (err: Option<string>)
      requires key !in files
      modifies this
      ensures err == failure
      ensures failure.None? ==> files == old(files)[key := val]
      ensures failure.Some? ==> files == old(files)
    {
      err := failure;
      if failure.None? {
        files := files[key := val];
      }
    }

    /** `PutMarshal` (store.go:24-36): a marshalling error is returned before the
        store is touched; otherwise the old file is erased and then written. */
    method PutMarshal(key: string, marshalled: Result<seq<byte>>, writeFailure: Option<string>)
      returns (err: Option<string>)
      modifies this
      ensures marshalled.Err? ==> err == Some(marshalled.msg) && files == old(files)
      ensures marshalled.Ok? ==> err == writeFailure
      ensures marshalled.Ok? && writeFailure.None? ==> files == old(files)[key := marshalled.value]
      ensures marshalled.Ok? && writeFailure.Some? ==> files == old(files) - {key}
    {
      if marshalled.Err? {
        return Some(marshalled.msg);
      }
      Erase(key);
      err := Write(key, marshalled.value, writeFailure);
    }

    /** `GetMarshal` (store.go:38-46): a missing key is an error; otherwise the
        file's bytes are unmarshalled. */
    method GetMarshal<T>(key: string, unmarshal: seq<byte> -> Result<T>) returns (r: Result<T>)
      ensures key !in files ==> r.Err?
      ensures key in files ==> r == unmarshal(files[key])
    {
      if key !in files {
        return Err("open " + key + ": no such file or directory");
      }
      r := unmarshal(files[key]);
    }

    /** `Contains` (store.go:48-55): scans the keys one by one. */
    method Contains(key: string) returns (found: bool)
      ensures found <==> key in files
    {
      var remaining := files.Keys;
      while remaining != {}
        invariant remaining <= files.Keys
        invariant key !in files.Keys - remaining
        decreases remaining
      {
        var k :| k in remaining;
        if k == key {
          return true;
        }
        remaining := remaining - {k};
      }
      return false;
    }
  }
}
