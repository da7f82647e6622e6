/**
 * The remote workspace as the copy action sees it through `WorkspaceClient.workspace`:
 * a recursive `delete`, `mkdirs` and `upload`. This is an in-memory stand-in that
 * records every request in a ghost trace. Any request may fail, whatever the store
 * holds (transport, authentication and server failures are not modelled further), so
 * whatever is proved about callers holds for every pattern of failures.
 */
module Workspace {
  import opened PosixPaths

  type Bytes = seq<bv8>

  /** A request issued to the remote workspace. Every delete the action issues is recursive. */
  datatype Op =
    | DeleteOp(path: string)
    | MkdirsOp(path: string)
    | UploadOp(path: string, content: Bytes, overwrite: bool)

  /** How a recursive delete ends: done, `ResourceDoesNotExist`, or any other error. */
  datatype DeleteReply = Deleted | ResourceDoesNotExist | DeleteFailed

  /** The objects left after removing everything at or below `root`. */
  function RemoveWithin(objects: map<string, Bytes>, root: string): (r: map<string, Bytes>)
    ensures forall k :: k in r <==> k in objects && !IsWithin(k, root)
    ensures forall k :: k in r ==> r[k] == objects[k]
  {
    map k | k in objects && !IsWithin(k, root) :: objects[k]
  }

  /** The folders left after removing everything at or below `root`. */
  function RemoveWithinSet(folders: set<string>, root: string): (r: set<string>)
    ensures forall k :: k in r <==> k in folders && !IsWithin(k, root)
  {
    set k | k in folders && !IsWithin(k, root)
  }

  class Client {
    /** Uploaded workspace files by path. */
    var objects: map<string, Bytes>
    /** Workspace folders by path. */
    var folders: set<string>
    /** Every request issued so far, in order, whether or not it succeeded. */
    ghost var trace: seq<Op>

    constructor (objects: map<string, Bytes>, folders: set<string>)
      ensures this.objects == objects && this.folders == folders && trace == []
    {
      this.objects := objects;
      this.folders := folders;
      trace := [];
    }

    /** Something (a file or a folder) exists at or below `path`. */
    predicate Occupied(path: string)
      reads this
    {
      (exists k | k in objects :: IsWithin(k, path)) || (exists k | k in folders :: IsWithin(k, path))
    }

    /** `workspace.delete(path, recursive=True)`. `ResourceDoesNotExist` is only ever the reply
        for a path with nothing at or below it, but any request may fail otherwise
        (permissions, authentication, transport), whatever the store holds. */
    method Delete(path: string) returns (reply: DeleteReply)
      modifies this
      ensures trace == old(trace) + [DeleteOp(path)]
      ensures reply == ResourceDoesNotExist ==> !old(Occupied(path))
      ensures reply == Deleted ==> old(Occupied(path))
      ensures reply == Deleted ==> objects == RemoveWithin(old(objects), path) && folders == RemoveWithinSet(old(folders), path)
      ensures reply != Deleted ==> objects == old(objects) && folders == old(folders)
    {
      var present := Occupied(path);
      var failed: bool := *;
      if failed {
        reply := DeleteFailed;
      } else if !present {
        reply := ResourceDoesNotExist;
      } else {
        objects, folders := RemoveWithin(objects, path), RemoveWithinSet(folders, path);
        reply := Deleted;
      }
      trace := trace + [DeleteOp(path)];
    }

    /** `workspace.mkdirs(path)`. */
    method Mkdirs(path: string) returns (ok: bool)
      modifies this
      ensures trace == old(trace) + [MkdirsOp(path)]
      ensures objects == old(objects)
      ensures folders == if ok then old(folders) + {path} else old(folders)
    {
      ok := *;
      if ok {
        folders := folders + {path};
      }
      trace := trace + [MkdirsOp(path)];
    }

    /** `workspace.upload(path, content, overwrite=...)`: with `overwrite` an existing file is
        replaced, without it an existing file makes the upload fail. */
    method Upload(path: string, content: Bytes, overwrite: bool) returns (ok: bool)
      modifies this
      ensures trace == old(trace) + [UploadOp(path, content, overwrite)]
      ensures !overwrite && path in old(objects) ==> !ok
      ensures objects == if ok then old(objects)[path := content] else old(objects)
      ensures folders == old(folders)
    {
      if !overwrite && path in objects {
        ok := false;
      } else {
        ok := *;
      }
      if ok {
        objects := objects[path := content];
      }
      trace := trace + [UploadOp(path, content, overwrite)];
    }
  }
}
