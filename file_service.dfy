/** FileService.js: which uploads multer lets through (`fileFilter` and the
    size limit), and `handleUpload`, as functions of the registry value. */
module UploadSpec {
  import opened Common
  import opened OrderedMap
  import opened RoomSpec
  import opened HubSpec

  /** The fields of `req.file` that `handleUpload` reads; `filename` is the
      name the disk storage chose. */
  datatype UploadedFile = UploadedFile(filename: string, originalname: string, mimetype: string, size: nat)

  datatype Body = ErrorBody(error: string) | SuccessBody(file: Message)

  /** The HTTP status and JSON body `handleUpload` answers with. */
  datatype Response = Response(status: nat, body: Body)

  /** The MIME types `fileFilter` accepts. */
  const AllowedTypes: seq<string> := ["image/jpeg", "image/png", "image/gif", "application/pdf", "text/plain"]

  /** `limits: { fileSize: 5 * 1024 * 1024 }`, in bytes. */
  const FileSizeLimit: nat := 5 * 1024 * 1024

  /** `xs.includes(x)` */
  function Includes(xs: seq<string>, x: string): (b: bool)
    ensures b <==> x in xs
  {
    if xs == [] then false else xs[0] == x || Includes(xs[1..], x)
  }

  /** `fileFilter`: whether multer keeps a file of this MIME type. */
  function FileFilter(mimetype: string): (accepted: bool)
    ensures accepted <==>
      mimetype == "image/jpeg" || mimetype == "image/png" || mimetype == "image/gif"
      || mimetype == "application/pdf" || mimetype == "text/plain"
  {
    Includes(AllowedTypes, mimetype)
  }

  /** What multer hands on: `req.file` set or absent, or the size-limit error. */
  datatype Intake = Passed(file: Option<UploadedFile>) | LimitExceeded

  /** multer on one multipart upload: a type the filter refuses is skipped
      (`req.file` stays unset); a kept file larger than the limit is an error. */
  function Receive(upload: Option<UploadedFile>): (r: Intake)
    ensures upload.None? ==> r == Passed(None)
    ensures r == Passed(upload) <==> upload.None? || (FileFilter(upload.value.mimetype) && upload.value.size <= FileSizeLimit)
    ensures r.LimitExceeded? <==> upload.Some? && FileFilter(upload.value.mimetype) && upload.value.size > FileSizeLimit
    ensures r.Passed? && r.file.Some? ==> r.file == upload
  {
    match upload
    case None => Passed(None)
    case Some(f) =>
      if !FileFilter(f.mimetype) then Passed(None)
      else if f.size > FileSizeLimit then LimitExceeded
      else Passed(Some(f))
  }

  /** The history record for an upload: `path` is the public `/uploads/` URL. */
  function FileRecord(f: UploadedFile, username: string, now: Time): (m: Message)
    ensures m.File? && m.filename == f.filename && m.originalname == f.originalname
    ensures m.path == "/uploads/" + f.filename && m.mimeType == f.mimetype && m.size == f.size
    ensures m.username == username && m.timestamp == now
  {
    File(f.filename, f.originalname, "/uploads/" + f.filename, f.mimetype, f.size, username, now)
  }

  /** `handleUpload(req, res, rooms, io)` */
  function Upload(h: Hub, file: Option<UploadedFile>, roomId: string, username: string, now: Time): (r: (Hub, Response))
    ensures file.None? ==> r == (h, Response(400, ErrorBody("No file uploaded")))
    ensures file.Some? && !CanJoin(h, roomId, username) ==> r == (h, Response(401, ErrorBody("Unauthorized")))
    ensures file.Some? && CanJoin(h, roomId, username) ==>
      && var record := FileRecord(file.value, username, now);
      && var before := Get(h.rooms, roomId).value;
      && r.1 == Response(200, SuccessBody(record))
      && Get(r.0.rooms, roomId) == Some(AddMessage(before, record, now))
      && (HubInv(h) ==> Get(r.0.rooms, roomId).value.messages == History.LastN(before.messages + [record], HistoryCap))
      && (forall k :: k != roomId ==> Get(r.0.rooms, k) == Get(h.rooms, k))
      && r.0.outbox == h.outbox + [Emit(ToRoom(roomId), "file-shared", Record(record))]
    ensures r.1.status == 200 <==> file.Some? && CanJoin(h, roomId, username)
    ensures Keys(r.0.rooms) == Keys(h.rooms) && r.0.nextTimer == h.nextTimer
    ensures HubInv(h) ==> HubInv(r.0)
  {
    match file
    case None => (h, Response(400, ErrorBody("No file uploaded")))
    case Some(f) =>
      if !CanJoin(h, roomId, username) then (h, Response(401, ErrorBody("Unauthorized")))
      else
        var record := FileRecord(f, username, now);
        (Post(h, roomId, record, "file-shared", now), Response(200, SuccessBody(record)))
  }

  /** Every file that reaches a room's history through multer has an allowed
      type and is within the size limit, and the record answered is the
      record broadcast. */
  lemma SharedFilesAdmitted(h: Hub, upload: Option<UploadedFile>, roomId: string, username: string, now: Time)
    requires Receive(upload).Passed?
    ensures var r := Upload(h, Receive(upload).file, roomId, username, now);
      r.1.status == 200 ==>
        && upload.Some? && upload.value.mimetype in AllowedTypes && upload.value.size <= FileSizeLimit
        && r.1.body.SuccessBody? && r.0.outbox[|r.0.outbox| - 1].payload == Record(r.1.body.file)
  {
  }
}

/** `handleUpload` run against the registry in place. */
module FileServices {
  import opened Common
  import opened OrderedMap
  import opened RoomSpec
  import opened HubSpec
  import opened Rooms
  import opened SocketHandlers
  import opened UploadSpec

  /** `handleUpload(req, res, rooms, io)` with `rooms` and `io` those of `hub`. */
  method HandleUpload(hub: SocketHandler, file: Option<UploadedFile>, roomId: string, username: string, now: Time)
    returns (res: Response)
    requires hub.Valid()
    modifies hub, hub.Repr()
    ensures hub.Valid() && hub.rooms == old(hub.rooms)
    ensures (hub.Abs(), res) == Upload(old(hub.Abs()), file, roomId, username, now)
  {
    if file.None? {
      return Response(400, ErrorBody("No file uploaded"));
    }
    var found := hub.Lookup(roomId);
    if found.None? || !hub.rooms[found.value].val.IsUserAuthorized(username) {
      assert !CanJoin(hub.Abs(), roomId, username);
      return Response(401, ErrorBody("Unauthorized"));
    }
    res := ShareFile(hub, found.value, file.value, roomId, username, now);
  }

  /** The accepted path of `handleUpload`: store the record, broadcast it,
      answer with it. */
  method ShareFile(hub: SocketHandler, i: nat, file: UploadedFile, roomId: string, username: string, now: Time)
    returns (res: Response)
    requires hub.Valid() && Find(hub.rooms, roomId) == Some(i) && CanJoin(hub.Abs(), roomId, username)
    modifies hub, hub.Repr()
    ensures hub.Valid() && hub.rooms == old(hub.rooms)
    ensures (hub.Abs(), res) == Upload(old(hub.Abs()), Some(file), roomId, username, now)
  {
    var record := FileRecord(file, username, now);
    hub.PostAt(i, roomId, record, "file-shared", now);
    res := Response(200, SuccessBody(record));
  }
}
