/** The directory a log rotator works in: whole files by name. The only failure is that a file is not there. */
module DiskModel {
  type Bytes = seq<bv8>
  type Files = map<string, Bytes>

  class Disk {
    var files: Files
    /** Every state the directory has been in, the present one last. */
    ghost var history: seq<Files>

    ghost predicate Valid()
      reads this
    {
      history != [] && history[|history| - 1] == files
    }

    constructor (files: Files)
      ensures Valid() && this.files == files
    {
      this.files := files;
      history := [files];
    }

    method Exists(name: string) returns (exists_: bool)
      ensures exists_ <==> name in files
    {
      exists_ := name in files;
    }

    method Remove(name: string)
      requires Valid()
      modifies this
      ensures Valid() && files == old(files) - {name} && history == old(history) + [files]
    {
      files := files - {name};
      history := history + [files];
    }

    method Rename(from: string, to: string)
      requires Valid() && from in files && from != to
      modifies this
      ensures Valid() && files == (old(files) - {from})[to := old(files)[from]]
      ensures history == old(history) + [files]
    {
      files := (files - {from})[to := files[from]];
      history := history + [files];
    }

    /** Opens `name` for writing from its beginning. */
    method Create(name: string)
      requires Valid()
      modifies this
      ensures Valid() && files == old(files)[name := []] && history == old(history) + [files]
    {
      files := files[name := []];
      history := history + [files];
    }

    method Append(name: string, data: Bytes)
      requires Valid() && name in files
      modifies this
      ensures Valid() && files == old(files)[name := old(files)[name] + data] && history == old(history) + [files]
    {
      files := files[name := files[name] + data];
      history := history + [files];
    }
  }
}
