/**
  The `File` handle: a path, a file name and what is derived from them, plus a
  flag saying whether the file is known to exist. Every operation checks its
  guards (the flag, the types of its arguments) and then hands one call to the
  `fs` module. The model returns that call, with the paths and arguments it
  would carry, instead of performing it.
 */
module FileHandle {
  import opened JsValues
  import opened FileEx

  /** The call to Node's `fs` module that an operation issues once its guards pass. */
  datatype FsCall =
    | FsStatSync(path: string)
    | FsStat(path: string)
    | FsRename(oldPath: string, newPath: string)
    | FsUnlink(path: string)
    | FsReadFile(path: string, encoding: Value)
    | FsReadFileSync(path: string, encoding: Value)
    | FsWriteFile(path: string, data: string)
    | FsAppendFile(path: string, data: string)
    | FsCopyFile(src: string, dest: string)

  const FILE_PATH_REQUIRED := "A file path is required."
  const FILE_NAME_REQUIRED := "A file name is required."
  const FILE_DOESNT_EXIST := "File doesn't exist. "

  /** The default parameter `encoding = 'utf8'`: it applies when the argument
      is `undefined` (left out), and any other argument is passed through. */
  function DefaultEncoding(encoding: Value): (e: Value)
    ensures encoding.Undefined? ==> e == Str("utf8")
    ensures !encoding.Undefined? ==> e == encoding
  {
    if encoding.Undefined? then Str("utf8") else encoding
  }

  class File {
    /** The `path` argument, as given (any truthy value). */
    const filePath: Value
    const fileName: string
    /** `path + '/' + filename` */
    const fullPath: string
    const extension: string
    const name: string
    /** The `exists` property: unset (falsy) until the existence probe
        reports, or until a write with a callback completes. */
    var fileExists: bool
    /** The `writeFile` calls `write` has issued whose completion has not run
        yet, each recorded by whether a callback function was given to it. */
    ghost var pendingWrites: multiset<bool>
    /** Whether the existence probe the constructor issued has yet to answer;
        it answers exactly once. */
    ghost var probePending: bool

    /** What construction establishes about the identity fields, which no
        method assigns again. */
    ghost predicate Valid() {
      && Truthy(filePath)
      && fileName != ""
      && fullPath == ToString(filePath) + "/" + fileName
      && GetFileEx(fileName) == Normal(Parts(name, extension))
    }

    /** The field assignments of the constructor, once its checks passed. */
    constructor Init(path: Value, filename: string, prop: Parts)
      requires Truthy(path) && filename != ""
      requires GetFileEx(filename) == Normal(prop)
      ensures Valid()
      ensures filePath == path && fileName == filename
      ensures fullPath == ToString(path) + "/" + filename
      ensures extension == prop.ex && name == prop.name
      ensures !fileExists
      ensures pendingWrites == multiset{}
      ensures probePending
    {
      filePath := path;
      fileName := filename;
      fullPath := ToString(path) + "/" + filename;
      extension := prop.ex;
      name := prop.name;
      fileExists := false;
      pendingWrites := multiset{};
      probePending := true;
    }

    /** `new File(path, filename, stats)`: the checks in the order the
        constructor makes them, and the handle it builds when none throws. */
    static method Create(path: Value, filename: Value, stats: Value) returns (r: Completion<File>)
      ensures !Truthy(path) ==> r == Throw(Error(FILE_PATH_REQUIRED))
      ensures Truthy(path) && !Truthy(filename) ==> r == Throw(Error(FILE_NAME_REQUIRED))
      ensures Truthy(path) && Truthy(filename) && !IsString(filename) ==> r == Throw(TypeError)
      ensures Truthy(path) && filename.Str? && filename.s != "" && !HasExtension(filename.s) ==>
                r == Throw(Error(NO_EXTENSION_MESSAGE))
      ensures Truthy(path) && filename.Str? && HasExtension(filename.s) && Truthy(stats) ==>
                r == Throw(Error(FILE_DOESNT_EXIST))
      ensures r.Normal? <==> Truthy(path) && filename.Str? && HasExtension(filename.s) && !Truthy(stats)
      ensures r.Normal? ==>
                && fresh(r.value)
                && r.value.Valid()
                && r.value.filePath == path
                && r.value.fileName == filename.s
                && r.value.fullPath == ToString(path) + "/" + filename.s
                && GetFileEx(filename.s) == Normal(Parts(r.value.name, r.value.extension))
                && !r.value.fileExists
                && r.value.pendingWrites == multiset{}
                && r.value.probePending
    {
      if !Truthy(path) {
        r := Throw(Error(FILE_PATH_REQUIRED));
        return;
      }
      if !Truthy(filename) {
        r := Throw(Error(FILE_NAME_REQUIRED));
        return;
      }
      // The existence probe is issued here; before the constructor has
      // returned or thrown, its callback (ExistsProbed) can at most have
      // stored false, so the flag stays unset throughout.
      if !filename.Str? {
        // getFileEx calls `filename.match`, which only strings have.
        r := Throw(TypeError);
        return;
      }
      var prop := GetFileEx(filename.s);
      if prop.Throw? {
        r := Throw(prop.exception);
        return;
      }
      var f := new File.Init(path, filename.s, prop.value);
      if Truthy(stats) {
        // `this.stats = this.statsSync()`, with the flag still unset.
        var st := f.StatsSync();
        r := Throw(st.exception);
        return;
      }
      r := Normal(f);
    }

    /** The callback of the existence probe the constructor issues: it runs
        once and stores the probe's answer in the flag. */
    method ExistsProbed(result: bool)
      requires probePending
      modifies this
      ensures fileExists == result
      ensures pendingWrites == old(pendingWrites)
      ensures !probePending
    {
      fileExists := result;
      probePending := false;
    }

    /** `statsSync()` */
    method StatsSync() returns (r: Completion<FsCall>)
      ensures r.Normal? <==> fileExists
      ensures !fileExists ==> r == Throw(Error(FILE_DOESNT_EXIST))
      ensures r.Normal? ==> r.value == FsStatSync(fullPath)
    {
      if !fileExists {
        r := Throw(Error(FILE_DOESNT_EXIST));
        return;
      }
      r := Normal(FsStatSync(fullPath));
    }

    /** `getStats(callback)` */
    method GetStats(callback: Value) returns (r: Completion<FsCall>)
      ensures r.Normal? <==> fileExists && IsFunction(callback)
      ensures !fileExists ==> r == Throw(Error(FILE_DOESNT_EXIST))
      ensures fileExists && !IsFunction(callback) ==>
                r == Throw(Error("File.getStats expects a callback got :" + ToString(callback)))
      ensures r.Normal? ==> r.value == FsStat(fullPath)
    {
      if !fileExists {
        r := Throw(Error(FILE_DOESNT_EXIST));
        return;
      }
      if !IsFunction(callback) {
        r := Throw(Error("File.getStats expects a callback got :" + ToString(callback)));
        return;
      }
      r := Normal(FsStat(fullPath));
    }

    /** `rename(newName, callback)`: the new path is in the handle's own
        directory; the handle's fields keep the old identity. */
    method Rename(newName: Value, callback: Value) returns (r: Completion<FsCall>)
      ensures r.Normal? <==> fileExists && IsString(newName)
      ensures !fileExists ==> r == Throw(Error(FILE_DOESNT_EXIST))
      ensures fileExists && !IsString(newName) ==>
                r == Throw(Error("File.rename expects a string got :" + ToString(newName)))
      ensures r.Normal? ==> r.value == FsRename(fullPath, ToString(filePath) + "/" + newName.s)
      ensures Valid() && r.Normal? ==>
                var dir := ToString(filePath) + "/";
                && r.value.oldPath == dir + fileName
                && r.value.newPath == dir + newName.s
                && (r.value.newPath == r.value.oldPath <==> newName.s == fileName)
    {
      if !fileExists {
        r := Throw(Error(FILE_DOESNT_EXIST));
        return;
      }
      if !IsString(newName) {
        r := Throw(Error("File.rename expects a string got :" + ToString(newName)));
        return;
      }
      r := Normal(FsRename(fullPath, ToString(filePath) + "/" + newName.s));
      if Valid() {
        var dir := ToString(filePath) + "/";
        assert (dir + newName.s == dir + fileName) ==> newName.s == fileName by {
          if dir + newName.s == dir + fileName {
            assert newName.s == (dir + newName.s)[|dir|..];
          }
        }
      }
    }

    /** `delete(callback)` */
    method Delete(callback: Value) returns (r: Completion<FsCall>)
      ensures r.Normal? <==> fileExists
      ensures !fileExists ==> r == Throw(Error(FILE_DOESNT_EXIST))
      ensures r.Normal? ==> r.value == FsUnlink(fullPath)
    {
      if !fileExists {
        r := Throw(Error(FILE_DOESNT_EXIST));
        return;
      }
      r := Normal(FsUnlink(fullPath));
    }

    /** `read(callback, encoding)`; its type error reuses the message of `getStats`. */
    method Read(callback: Value, encoding: Value) returns (r: Completion<FsCall>)
      ensures r.Normal? <==> fileExists && IsFunction(callback)
      ensures !fileExists ==> r == Throw(Error(FILE_DOESNT_EXIST))
      ensures fileExists && !IsFunction(callback) ==>
                r == Throw(Error("File.getStats expects a callback got :" + ToString(callback)))
      ensures r.Normal? ==> r.value == FsReadFile(fullPath, DefaultEncoding(encoding))
    {
      if !fileExists {
        r := Throw(Error(FILE_DOESNT_EXIST));
        return;
      }
      if !IsFunction(callback) {
        r := Throw(Error("File.getStats expects a callback got :" + ToString(callback)));
        return;
      }
      r := Normal(FsReadFile(fullPath, DefaultEncoding(encoding)));
    }

    /** `readSync(encoding)` */
    method ReadSync(encoding: Value) returns (r: Completion<FsCall>)
      ensures r.Normal? <==> fileExists
      ensures !fileExists ==> r == Throw(Error(FILE_DOESNT_EXIST))
      ensures r.Normal? ==> r.value == FsReadFileSync(fullPath, DefaultEncoding(encoding))
    {
      if !fileExists {
        r := Throw(Error(FILE_DOESNT_EXIST));
        return;
      }
      r := Normal(FsReadFileSync(fullPath, DefaultEncoding(encoding)));
    }

    /** `write(data, callback)`: the call itself only checks the data and
        issues `writeFile`; the flag is left alone until the write completes.
        An issued write becomes pending, remembering whether its callback is
        a function. */
    method Write(data: Value, callback: Value) returns (r: Completion<FsCall>)
      modifies this
      ensures r.Normal? <==> IsString(data)
      ensures !IsString(data) ==>
                r == Throw(Error("File.write expects data as a string, got : " + ToString(data)))
      ensures r.Normal? ==> r.value == FsWriteFile(fullPath, data.s)
      ensures fileExists == old(fileExists) && probePending == old(probePending)
      ensures pendingWrites ==
                if r.Normal? then old(pendingWrites) + multiset{IsFunction(callback)}
                else old(pendingWrites)
    {
      if !IsString(data) {
        r := Throw(Error("File.write expects data as a string, got : " + ToString(data)));
        return;
      }
      r := Normal(FsWriteFile(fullPath, data.s));
      pendingWrites := pendingWrites + multiset{IsFunction(callback)};
    }

    /** The completion of one pending `writeFile` issued by `write`, run later
        by the event loop: `succeeded` is false when the file system reports
        an error, and `withCallback` is what that `write` recorded about its
        callback. The flag becomes true only after a successful write for
        which a callback function was given, and is otherwise unchanged. */
    method WriteCompleted(succeeded: bool, withCallback: bool)
      requires withCallback in pendingWrites
      modifies this
      ensures pendingWrites == old(pendingWrites) - multiset{withCallback}
      ensures fileExists == (old(fileExists) || (succeeded && withCallback))
      ensures probePending == old(probePending)
    {
      pendingWrites := pendingWrites - multiset{withCallback};
      if succeeded && withCallback {
        fileExists := true;
      }
    }

    /** `append(data, callback)`; the message keeps the source's spelling. */
    method Append(data: Value, callback: Value) returns (r: Completion<FsCall>)
      ensures r.Normal? <==> IsString(data)
      ensures !IsString(data) ==>
                r == Throw(Error("File.appned expects data as a string, got : " + ToString(data)))
      ensures r.Normal? ==> r.value == FsAppendFile(fullPath, data.s)
    {
      if !IsString(data) {
        r := Throw(Error("File.appned expects data as a string, got : " + ToString(data)));
        return;
      }
      r := Normal(FsAppendFile(fullPath, data.s));
    }

    /** `duplicate(name, callback)`: the destination is `name` exactly as
        given, not joined with the handle's directory. */
    method Duplicate(destination: Value, callback: Value) returns (r: Completion<FsCall>)
      ensures r.Normal? <==> IsString(destination)
      ensures !IsString(destination) ==>
                r == Throw(Error("File.duplicate expects name as a string, got : " + ToString(destination)))
      ensures r.Normal? ==> r.value == FsCopyFile(fullPath, destination.s)
    {
      if !IsString(destination) {
        r := Throw(Error("File.duplicate expects name as a string, got : " + ToString(destination)));
        return;
      }
      r := Normal(FsCopyFile(fullPath, destination.s));
    }
  }

  /** A caller's view of the flag: on a fresh handle `delete` throws, and it
      still throws right after `write` returns; once that write has completed
      successfully with a callback, the same `delete` unlinks the handle's
      full path. (An answer of the existence probe arriving after that
      completion would overwrite the flag again.) */
  method WriteEnablesDelete(dir: string, fileName: string)
      returns (before: Completion<FsCall>, pending: Completion<FsCall>, after: Completion<FsCall>)
    requires dir != "" && HasExtension(fileName)
    ensures before == Throw(Error(FILE_DOESNT_EXIST))
    ensures pending == Throw(Error(FILE_DOESNT_EXIST))
    ensures after == Normal(FsUnlink(dir + "/" + fileName))
  {
    var made := File.Create(Str(dir), Str(fileName), Undefined);
    var f := made.value;
    before := f.Delete(Undefined);
    var w := f.Write(Str("hello"), Func("() => {}"));
    pending := f.Delete(Undefined);
    f.WriteCompleted(true, true);
    after := f.Delete(Undefined);
  }
}
