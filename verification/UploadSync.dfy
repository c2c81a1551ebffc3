/** From an upload to its replication: which file a change names that a request has queued. */
module UploadSync {
  import opened ByteSearch
  import opened StreamParser
  import opened UploadSpec
  import opened UploadTurns
  import opened UploadForm
  import SN = StorageNodes

  /** The change that UpdateLog_ queues for each peer when a request is complete. */
  function PackOf(q: Info, ringLogId: nat, synLogId: nat): SN.SynPack {
    SN.SynPack(ringLogId, synLogId, if q.area.PUBLIC? then "" else q.userName, q.fileName, q.behavior.UPLOAD?)
  }

  /** The change names the file that the request has stored exactly if the name in the URL is that in the part, and a
      private upload has a user: a file of nobody is stored below the private directory, and looked for in the public
      one. */
  lemma SameFileIff(q: Info, ringLogId: nat, synLogId: nat)
    requires !q.area.PATH_OTHER?
    ensures var pack := PackOf(q, ringLogId, synLogId);
            SN.LocalPath(q.root, pack.user, pack.name) == FilePath(q)
            <==> q.fileName == q.recvFileName && (q.area.PRIVATE? ==> q.userName != "")
  {
    if q.area.PUBLIC? {
      SameTail(q.root + "/public/", q.fileName, q.recvFileName);
    } else if q.userName != "" {
      SameTail(q.root + "/private/" + q.userName + "/", q.fileName, q.recvFileName);
    } else {
      OtherPlace(q.root, q.fileName, q.recvFileName);
    }
  }

  lemma SameTail(dir: string, a: string, b: string)
    ensures dir + a == dir + b <==> a == b
  {
    assert (dir + a)[|dir|..] == a && (dir + b)[|dir|..] == b;
  }

  lemma OtherPlace(root: string, a: string, b: string)
    ensures root + "/public/" + a != root + "/private/" + "" + "/" + b
  {
    assert (root + "/public/" + a)[|root| + 2] == 'u';
    assert (root + "/private/" + "" + "/" + b)[|root| + 2] == 'r';
  }

  /** So an uploaded file is sent to the peers as it was stored: for every form whose two names agree, and that has an
      owner if it is private, what the task opens is the file with the content appended. */
  lemma StoredIsSent(f: Form, node: SN.StorageNode, accounts: map<(string, string), string>, disk: map<string, string>,
                     content: string, chunks: seq<string>, ringLogId: nat, synLogId: nat)
    requires f.Clean() && chunks != [] && Flatten(chunks) == Printed(f, content)
    requires f.LastBoundary(f.headers) == f.boundary
    requires Find(content + ClosingDelimiter(f.boundary), ClosingDelimiter(f.boundary), 0) == |content|
    requires f.url == f.name && (f.area.PRIVATE? ==> f.Owner(accounts) != "")
    ensures var q := Turns(Request(Fresh(node.root, accounts), disk, ""), chunks);
            var path := if f.area.PUBLIC? then node.root + "/public/" + f.name
                        else node.root + "/private/" + f.Owner(accounts) + "/" + f.name;
            node.FileOf(SN.Syn(PackOf(q.info, ringLogId, synLogId)), q.disk)
            == SN.Open((if path in disk then disk[path] else "") + content)
  {
    hide *;
    var q := Turns(Request(Fresh(node.root, accounts), disk, ""), chunks);
    UploadRoundTrip(f, node.root, accounts, disk, content, chunks);
    AreaKnown(f);
    OpensStored(f, node, accounts, q.info, disk, content, ringLogId, synLogId);
  }

  lemma OpensStored(f: Form, node: SN.StorageNode, accounts: map<(string, string), string>, q: Info,
                    disk: map<string, string>, content: string, ringLogId: nat, synLogId: nat)
    requires Answered(f, accounts, q) && !f.area.PATH_OTHER?
    requires f.url == f.name && (f.area.PRIVATE? ==> f.Owner(accounts) != "")
    ensures var path := if f.area.PUBLIC? then node.root + "/public/" + f.name
                        else node.root + "/private/" + f.Owner(accounts) + "/" + f.name;
            var stored := disk[f.Path(node.root, accounts) := Get(disk, f.Path(node.root, accounts)) + content];
            node.FileOf(SN.Syn(PackOf(q, ringLogId, synLogId)), stored)
            == SN.Open((if path in disk then disk[path] else "") + content)
  {
    hide Form.Owner, LastOf;
    NamesOf(f, accounts, q);
    assert f.area.PUBLIC? || f.area.PRIVATE?;
    var owner := f.Owner(accounts);
    if f.area.PRIVATE? {
      Associative(node.root, "/private/" + owner + "/", f.name);
      Associative(node.root, "/private/" + owner, "/");
      Associative(node.root, "/private/", owner);
    } else {
      Associative(node.root, "/public/", f.name);
    }
  }

  lemma NamesOf(f: Form, accounts: map<(string, string), string>, q: Info)
    requires Answered(f, accounts, q)
    ensures q.behavior.UPLOAD? && q.area == f.area && q.fileName == f.url && q.userName == f.Owner(accounts)
  {
  }

  lemma AreaKnown(f: Form)
    requires f.Clean()
    ensures !f.area.PATH_OTHER?
  {
  }
}
