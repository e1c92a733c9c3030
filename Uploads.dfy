/**
 * Attaching a file to a task (`POST` in app/api/uploads/route.ts): the guards and their
 * order (401, 400, 404, then 500 from storage), and the one attachment row appended when
 * the file has been stored. The task and attachment tables are the fields of an
 * `AttachmentTable` object.
 */
module Uploads {
  import opened Wrappers
  import opened Js
  import opened Http
  import opened Storage

  /** A task row, as far as the lookup reads it. */
  datatype Task = Task(id: string, userId: string)

  /** An attachment row. */
  datatype Attachment = Attachment(id: string, taskId: string, filePath: string, originalFilename: string,
                                   mimeType: string, sizeBytes: nat)

  const FileAndTaskRequiredMessage: string := "file and taskId required"
  const TaskNotFoundMessage: string := "Task not found."

  /** `prisma.task.findFirst({ where: { id: taskId, userId } })`: the first task of that id owned by that user. */
  function FindTask(tasks: seq<Task>, taskId: string, userId: string): (r: Option<Task>)
    ensures r.Some? ==> r.value in tasks && r.value.id == taskId && r.value.userId == userId
    ensures r.None? ==> forall i :: 0 <= i < |tasks| ==> !(tasks[i].id == taskId && tasks[i].userId == userId)
  {
    if tasks == [] then None
    else if tasks[0].id == taskId && tasks[0].userId == userId then Some(tasks[0])
    else FindTask(tasks[1..], taskId, userId)
  }

  /** The row `prisma.attachment.create` writes for a stored file; `id` is the identifier the database assigns. */
  function NewAttachment(id: string, task: Task, stored: StoredFile): (a: Attachment)
    ensures a.id == id && a.taskId == task.id
    ensures a.filePath == stored.path && a.originalFilename == stored.originalFilename
    ensures a.mimeType == stored.mimeType && a.sizeBytes == stored.sizeBytes
  {
    Attachment(id, task.id, stored.path, stored.originalFilename, stored.mimeType, stored.sizeBytes)
  }

  class AttachmentTable {
    var tasks: seq<Task>
    var attachments: seq<Attachment>

    /**
     * The foreign key of the attachment table: every attachment belongs to a task in the
     * table. Post keeps it, because it appends a row only for a task it has found.
     */
    predicate Valid()
      reads this
    {
      forall a :: a in attachments ==> exists t :: t in tasks && t.id == a.taskId
    }

    constructor(tasks: seq<Task>)
      ensures Valid() && this.tasks == tasks && attachments == []
    {
      this.tasks := tasks;
      attachments := [];
    }

    /**
     * `POST(req)` with the signed-in user, the form's `file` and `taskId` fields, the
     * storage it writes to, the inputs storeImage needs (environment, clock, UUID and I/O
     * outcomes) and the identifier the database gives the new row.
     */
    method Post(userId: Option<string>, file: Option<UploadedFile>, taskId: Option<string>,
                storage: StorageBackend, env: map<string, string>, now: int, uuid: string, io: StorageIo,
                newId: string) returns (resp: Response<Attachment>)
      requires Valid()
      modifies this`attachments, storage
      ensures Valid() && tasks == old(tasks)
      ensures !TruthyString(userId) ==>
                resp == Error(401, UnauthorizedMessage) && attachments == old(attachments) && unchanged(storage)
      ensures TruthyString(userId) && (file.None? || !TruthyString(taskId)) ==>
                resp == Error(400, FileAndTaskRequiredMessage) && attachments == old(attachments) && unchanged(storage)
      ensures TruthyString(userId) && file.Some? && TruthyString(taskId)
              && FindTask(tasks, taskId.value, userId.value).None? ==>
                resp == Error(404, TaskNotFoundMessage) && attachments == old(attachments) && unchanged(storage)
      ensures TruthyString(userId) && file.Some? && TruthyString(taskId)
              && FindTask(tasks, taskId.value, userId.value).Some? ==>
                var task := FindTask(tasks, taskId.value, userId.value).value;
                var filename := StoredFilename(now, uuid, file.value.name);
                var stored := StoreResult(env, old(storage.Taken(env, userId.value, Attachments, filename)),
                                          file.value, userId.value, Attachments, now, uuid, io);
                var config := GetStorageConfig(env);
                && (stored.Failure? ==> resp == Error(500, stored.error) && attachments == old(attachments)
                                        && storage.remote == old(storage.remote) && storage.local == old(storage.local))
                && (stored.Success? ==> resp == Ok(NewAttachment(newId, task, stored.value))
                                        && attachments == old(attachments) + [resp.value])
                && (stored.Success? && config.Some? ==>
                      storage.remote == old(storage.remote)[(config.value.bucket, ObjectPath(userId.value, Attachments, filename)) := file.value.bytes]
                      && storage.local == old(storage.local))
                && (stored.Success? && config.None? ==>
                      storage.local == old(storage.local)[filename := file.value.bytes]
                      && storage.remote == old(storage.remote))
    {
      if !TruthyString(userId) {
        return Error(401, UnauthorizedMessage);
      }
      if file.None? || !TruthyString(taskId) {
        return Error(400, FileAndTaskRequiredMessage);
      }
      var found := FindTask(tasks, taskId.value, userId.value);
      if found.None? {
        return Error(404, TaskNotFoundMessage);
      }
      var task := found.value;
      var stored := storage.StoreImage(env, file.value, userId.value, Attachments, now, uuid, io);
      if stored.Failure? {
        return Error(500, stored.error);
      }
      var att := NewAttachment(newId, task, stored.value);
      attachments := attachments + [att];
      resp := Ok(att);
    }
  }

  /** The lookup returns the first task with that id that the user owns. */
  lemma {:induction false} FindTaskFirst(tasks: seq<Task>, taskId: string, userId: string, i: nat)
    requires i < |tasks| && tasks[i].id == taskId && tasks[i].userId == userId
    requires forall j :: 0 <= j < i ==> !(tasks[j].id == taskId && tasks[j].userId == userId)
    ensures FindTask(tasks, taskId, userId) == Some(tasks[i])
  {
    if i > 0 {
      FindTaskFirst(tasks[1..], taskId, userId, i - 1);
    }
  }
}
