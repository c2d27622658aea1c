# College back office: grading, notification dispatch and upload rules

This project models the parts of a college administration back end that hold logic. The back end is written for Node.js with Express and Mongoose. The project proves properties of the model in Dafny. There are three parts.

- **Grading** (`grading.dfy`). A result document has a pre-save hook. The hook turns the total and maximum marks into a percentage, a letter grade (A+, A, B+, B, C, D, F) and a pass/fail status. It grades each subject on the same ladder. In the model, `ResultDoc` is a class whose subjects are held in an array, and `PreSave` updates the document in place in a loop. The method is proved equal to the pure function `Derive`. The lemmas cover `Derive` and the ladder.
- **Administrative handlers** (`dispatch.dfy`, `admin.dfy`). These are result upload, targeted and broadcast notifications, admission update, faculty creation, course creation, and the pagination arithmetic of the content listing.
  - The document store is the class `AdminStore`. Its collections are sequences in insertion order.
  - Every in-app notification record and every email attempt a handler writes is appended, in order, to one `outbox`. This lets the model state the order of writes.
  - The email transport is a `Mailer`. It decides whether the attempt written at a given outbox position is delivered. An undelivered attempt ends the handler with a server error, just as the rejected `await sendEmail(...)` falls into the handler's `catch`.
  - The notification loops are described by the pure functions `Dispatch.Fanout` and `Dispatch.Broadcast`. The handler methods are proved equal to these functions.
- **Upload rules** (`upload.dfy`). These are the destination directory chosen by content type, the file-name sanitiser and composer, and the MIME allow-list filter with its rejection message.

`common.dfy` holds the shared vocabulary:

- optional values;
- JavaScript truthiness of request fields;
- the decimal rendering of integers in template strings;
- `FindFirst`, which stands for the store's `findOne`.

Percentages are exact rationals (`real`). Marks are integers.

Two behaviours of the code are easy to misread, and the model follows the code in both.

- **Email failures.** A failed `sendEmail` is not tolerated: it ends the handler with status 500 after the primary write has been stored.
- **Admission status.** `updateAdmission` stores whatever status string it is given; no `pending → approved | rejected` transition is enforced.

## Model

| member | source | states |
|---|---|---|
| Grading.ResultDoc.constructor | models/Result.js:9-16 | a new document has record maximum 500, each subject without a maximum gets 100, status is pending, and no percentage or grade is set |
| Grading.ResultDoc.PreSave | models/Result.js:23-75 | the hook leaves the document equal to `Derive` of the document before it, updating the subjects array in place |
| Grading.ResultDoc.PreSaveTwice | models/Result.js:23-75 | running the hook twice leaves the same document as running it once |
| Grading.LadderIsHighestReached | models/Result.js:29-43 | the ladder gives the highest letter whose inclusive lower bound the percentage reaches, and only that letter |
| Grading.LadderMonotone | models/Result.js:29-43 | a higher percentage never gives a lower letter |
| Grading.FailIffF | models/Result.js:29-46 | status is fail exactly when the letter is F, and pass exactly when the letter is D or better |
| Grading.PercentAtLeast | models/Result.js:26 | with a positive maximum, reaching k percent is the integer comparison 100·total ≥ k·max |
| Grading.LadderByMarks | models/Result.js:26-46 | with a positive maximum, the ladder on the percentage equals the ladder on marks by cross-multiplication (10·t ≥ 9·m for A+ and so on), and so does the status (10·t ≥ 4·m passes) |
| Grading.GradeMonotoneInMarks | models/Result.js:26-43 | over the same positive maximum, more marks never give a lower letter |
| Grading.DerivedSummary | models/Result.js:25-47 | when total and maximum are non-zero, a negative maximum included, the percentage is total/maximum·100 and the grade and status follow the ladder on it; with a positive maximum they follow the integer ladder; when either is zero, percentage, grade and status are left as they were |
| Grading.PendingIffTotalsMissing | models/Result.js:16-47 | status stays pending after the hook exactly when it was pending and the total or the maximum is zero |
| Grading.ComputedFailIffF | models/Result.js:25-47 | when the hook computes a status, it is not pending, and it is fail exactly when the stored grade is "F" |
| Grading.DeriveChangesOnlyDerived | models/Result.js:23-72 | the hook changes only percentage, grade, status and subject grades; the subjects' number, order, names, marks and maxima stay the same |
| Grading.SubjectGrading | models/Result.js:50-71 | a subject with zero marks or zero maximum keeps its grade; any other subject gets the grade the record ladder gives for its own marks and maximum |
| Grading.DeriveIdempotent | models/Result.js:23-75 | applying the hook to its own output changes nothing |
| Grading.NewResultDefaults | models/Result.js:9-16 | record maximum 500, subject maximum 100 when absent, status pending |
| Grading.Ladder | models/Result.js:29-43 | defines the shared ladder: A+ from 90, A from 80, B+ from 70, B from 60, C from 50, D from 40, otherwise F, each bound inclusive; its properties are those of LadderIsHighestReached and LadderMonotone |
| Grading.StatusFor | models/Result.js:46 | defines the status: pass from 40 percent, otherwise fail; FailIffF ties it to the letter |
| Grading.GradeSubject | models/Result.js:52-70 | defines one iteration of the subject loop; SubjectGrading states what it does |
| Grading.Derive | models/Result.js:23-75 | defines the hook as a function of the document before it; PreSave is proved equal to it, and DerivedSummary, DeriveChangesOnlyDerived and DeriveIdempotent state its properties |
| Grading.NewSubject | models/Result.js:6-11 | defines how a request subject becomes a subdocument: the default maximum 100, an absent name stored as "" and absent marks as 0; NewResultDefaults and StoredSubjects state what it keeps |
| Grading.NewResult | models/Result.js:3-20 | defines a new document with the schema defaults; NewResultDefaults states them |
| Grading.SubjectsSavable | models/Result.js:7-8 | defines the schema's required checks on the subjects: every name a non-empty string and every mark present; UploadResults answers 500 with nothing written when it fails |
| Grading.BoundaryExamples | models/Result.js:25-46 | 450/500 gives 90.0, A+ and pass; 200/500 gives 40.0, D and pass; 199/500 gives F and fail |
| Upload.Destination | middleware/upload.js:26-41 | the destination is always one of the four directories created at start-up under uploads/ |
| Upload.DestinationRoutes | middleware/upload.js:27-41 | with the content type taken by `ContentType` as the request's type when it is a non-empty string and "document" otherwise: gallery, about, news and event go to uploads/gallery; profile goes to uploads/profiles; result goes to uploads/results; everything else, a missing type included, goes to uploads/documents (each an if-and-only-if) |
| Upload.Sanitize | middleware/upload.js:52-55 | the sanitised name has one output character per input character, each the per-character replacement of its input |
| Upload.SanitizedAlphabet | middleware/upload.js:54-55 | every output character is a lower-case letter, a digit or '-'; an output character is '-' exactly when its input was not alphanumeric; alphanumerics are kept, lower-cased |
| Upload.SanitizeIdempotent | middleware/upload.js:52-55 | sanitising twice gives the same as sanitising once |
| Upload.FileNameShape | middleware/upload.js:57 | the file name ends with the extension, has length base+1+suffix+extension, starts with the sanitised base and has '-' right after it |
| Upload.SubtypeOfMime | middleware/upload.js:116 | the text after '/' of a well-formed MIME type is its subtype |
| Upload.AllListsWellFormed | middleware/upload.js:70-106 | every allowed MIME type of every content type contains a '/', so `split("/")[1]` in the message is always defined and `.toUpperCase()` never throws |
| Upload.Labels | middleware/upload.js:115-116 | one label per allowed type: its subtype, upper-cased |
| Upload.MimeLabel | middleware/upload.js:116 | the label of a MIME type `major/minor` is `minor` upper-cased |
| Upload.AllowedTypes | middleware/upload.js:70-103 | defines the allow-list object's own keys and their lists; ImageTypesAccept and FormAcceptsOnlyPdf state entries of it |
| Upload.AllowedFor | middleware/upload.js:106 | the list checked for a content type is never empty; an unlisted type gets the document list |
| Upload.FileName | middleware/upload.js:57 | defines the composed name; FileNameShape states its shape |
| Upload.RejectionMessage | middleware/upload.js:113-118 | defines the message from the labels and the requested type; RejectionMessageTail states its tail |
| Upload.FileFilterAsWritten | middleware/upload.js:106-108 | defines the filter as written, with the inherited-key TypeError; InheritedKeyBreaksFilter and AsWrittenAgreesOffInheritedKeys relate it to FileFilter |
| Upload.UnlistedRejectionQuotesDocuments | middleware/upload.js:106-117 | a file rejected for an unlisted type gets the message built from the document list and the requested type |
| Upload.FileFilter | middleware/upload.js:106-121 | accepts exactly when the mimetype is in the content type's list, or in the document list for an unlisted type; never raises a TypeError (corrected lookup, see Findings) |
| Upload.InheritedKeyBreaksFilter | middleware/upload.js:106-108 | for the content type "toString", the filter as written raises a TypeError, while the corrected filter accepts a PDF |
| Upload.AsWrittenAgreesOffInheritedKeys | middleware/upload.js:106-121 | off the inherited property names, the filter as written and the corrected filter agree |
| Upload.ImageTypesAccept | middleware/upload.js:71-75 | gallery, about, news, event and profile accept exactly JPEG, PNG, GIF and WEBP |
| Upload.FormAcceptsOnlyPdf | middleware/upload.js:93 | form accepts exactly application/pdf |
| Upload.UnlistedFallsBackToDocument | middleware/upload.js:106 | an unlisted content type accepts exactly what document accepts |
| Upload.RejectionMessageTail | middleware/upload.js:115-117 | the rejection message ends with " files are allowed for <type> uploads." |
| Upload.RejectionNamesRequestedType | middleware/upload.js:108-121 | a file that is not accepted is rejected with a message naming the requested type, also when the document list was used |
| Upload.FormRejection | middleware/upload.js:93-117 | a PNG uploaded as form is rejected with "Invalid file type. Only PDF files are allowed for form uploads." |
| Upload.ImageLabels | middleware/upload.js:71-116 | the image list labels are JPEG, PNG, GIF, WEBP |
| Upload.ImageRejection | middleware/upload.js:73-117 | a PDF uploaded as news is rejected with "Invalid file type. Only JPEG, PNG, GIF, WEBP files are allowed for news uploads." |
| Dispatch.InAppsPointwise | controllers/adminController.js:522-531 | one record per recipient, in order, each for that recipient and with channel "in-app" whatever was asked for |
| Dispatch.InAppsAppend | controllers/adminController.js:522-531 | the records for a concatenated recipient list are those of its parts, concatenated |
| Dispatch.AddressIsFirstMatch | controllers/adminController.js:535-537 | the address used is the email of the first directory entry with the recipient's id, and there is none when that entry's email is empty or no entry has the id |
| Dispatch.MailFor | controllers/adminController.js:534-539 | defines the email due for a recipient: one exactly when email or both was asked for and an address was found; the subject is `emailSubject` or "New Notification" |
| Dispatch.Step | controllers/adminController.js:522-540 | defines one iteration of the send loop; StepShape, StepNotes and StepMails state what it writes |
| Dispatch.Fanout | controllers/adminController.js:522-541 | defines the whole send loop; SendNotification is proved equal to it, and FanoutExtends, FanoutCompleted and Aborted state its properties |
| Dispatch.ProjectionsAppend | controllers/adminController.js:522-541 | the records and the emails of a concatenated outbox are those of its parts, concatenated |
| Dispatch.TargetsAppend | controllers/adminController.js:534-539 | the emails due for a concatenated recipient list are those of its parts, concatenated |
| Dispatch.StepShape | controllers/adminController.js:522-540 | one iteration keeps what was written before, writes the recipient's in-app record first, and ends the loop only when an email was due and its attempt, written last, was not delivered |
| Dispatch.StepNotes | controllers/adminController.js:524-531 | one iteration adds exactly the recipient's in-app record to the records |
| Dispatch.StepMails | controllers/adminController.js:534-539 | one iteration adds exactly the email due for the recipient, if any, to the attempts |
| Dispatch.FanoutExtends | controllers/adminController.js:522-541 | the loop only appends to the outbox, and every email attempt it writes directly follows the in-app record of the recipient whose looked-up address it goes to |
| Dispatch.FanoutCompleted | controllers/adminController.js:522-543 | a loop that runs to its end writes one in-app record per element of userIds, in order and with duplicates, and attempts exactly the emails that the channel and the address lookups call for |
| Dispatch.FailedAt | controllers/adminController.js:538 | the recipient whose undelivered email cut the loop short is a position within userIds |
| Dispatch.AbortedLast | controllers/adminController.js:534-540 | in a loop cut short, that recipient has an address, and its failed attempt is the last thing written |
| Dispatch.FanoutNotes | controllers/adminController.js:522-541 | the loop's records are exactly the in-app records of the recipients it reached, in order |
| Dispatch.FanoutMails | controllers/adminController.js:522-541 | the loop's email attempts are exactly those due for the recipients it reached, in order |
| Dispatch.ReachedAll | controllers/adminController.js:522-541 | a loop that runs to its end reaches every element of userIds |
| Dispatch.ReachedUpToFailure | controllers/adminController.js:522-544 | a loop cut short at recipient k reaches exactly the first k+1 elements of userIds |
| Dispatch.Aborted | controllers/adminController.js:522-544 | a loop cut short at recipient k writes the records and attempts the emails of the first k+1 recipients and nobody else's |
| Dispatch.FanoutInAppOnly | controllers/adminController.js:522-541 | with a channel other than email or both, no email is attempted and the loop always completes with exactly one record per recipient |
| Dispatch.PartialFailure | controllers/adminController.js:522-544 | with three addressed recipients and the second delivery failing, the outbox is the first record, its delivered email, the second record and its failed attempt; the third gets nothing and the handler fails |
| Dispatch.Announce | controllers/adminController.js:558-568 | the broadcast's first loop writes one in-app record per user of the snapshot, in snapshot order |
| Dispatch.MailEach | controllers/adminController.js:572-576 | defines the broadcast's second loop; MailEachShape, MailEachNotes and MailEachMails state its properties |
| Dispatch.Broadcast | controllers/adminController.js:552-577 | defines the whole broadcast after the snapshot; BroadcastNotification is proved equal to it, and BroadcastNotesFirst and BroadcastMails state its properties |
| Dispatch.BroadcastReport | controllers/adminController.js:579 | defines the success message; BroadcastReportNamesCount states that it determines the count |
| Dispatch.MailEachShape | controllers/adminController.js:571-577 | the broadcast's second loop keeps what was written before it and appends only email attempts |
| Dispatch.MailEachNotes | controllers/adminController.js:571-577 | the second loop writes no in-app record |
| Dispatch.MailEachMails | controllers/adminController.js:571-577 | when the second loop completes, its attempts are exactly those for the users with an address, in snapshot order |
| Dispatch.AnnounceNotes | controllers/adminController.js:554-568 | the first loop's records are exactly the in-app records for the snapshot's ids (`Ids`, the `users.map(user => user._id)` of line 554, in snapshot order), and it attempts no email |
| Dispatch.BroadcastNotesFirst | controllers/adminController.js:552-577 | every in-app record of a broadcast is written before any email attempt, whether or not the emails all go out |
| Dispatch.BroadcastMails | controllers/adminController.js:571-577 | a completed broadcast attempts one email per addressed user when email or both was asked for, and none otherwise |
| Admin.UploadCheck | controllers/adminController.js:229-243 | the guard chain: missing fields exactly when the roll number, semester or total is falsy; no student exactly when the fields are present and no student has the roll number; duplicate exactly when a student exists and a result with the same roll number and semester exists; accepted only for a stored student with that roll number and no such result |
| Admin.ValidationFirst | controllers/adminController.js:229-231 | a request with a falsy field, a total of 0 included, is rejected by validation whatever the store holds |
| Admin.StoredResult | controllers/adminController.js:246-255 | the saved result carries the upload's roll number, semester and total, maximum 500, the actor as uploader and the given time, one subject per supplied subject (none when absent), the computed percentage, and a status that is not pending and is fail exactly when the grade is F |
| Admin.AcceptedKeepsUnique | controllers/adminController.js:240-255 | saving an accepted upload keeps (roll number, semester) unique among the results |
| Admin.SecondUploadConflicts | controllers/adminController.js:240-243 | after an accepted upload is saved, the same request is a duplicate: uploads never overwrite |
| Admin.StoredSubjects | controllers/adminController.js:246-255 | a result that validates stores each subject with the name and marks supplied, in order, the name non-empty and the maximum 100 when none was given |
| Admin.ResultMail | controllers/adminController.js:258-262 | defines the student's result email; ResultNoticeNamesSemester and IntToStringInjective cover its rendering |
| Admin.ResultNotice | controllers/adminController.js:265-270 | defines the in-app record for an uploaded result; ResultNoticeNamesSemester states that it determines the semester |
| Admin.BroadcastReportNamesCount | controllers/adminController.js:579 | two broadcast reports that read the same count the same number of users |
| Common.IntToString | controllers/adminController.js:261 | the decimal rendering used in template strings is non-empty and starts with '-' exactly for a negative number |
| Admin.NatToStringInjective | controllers/adminController.js:268 | different numbers render as different decimal strings |
| Admin.IntToStringInjective | controllers/adminController.js:268 | different integers render as different strings |
| Admin.ResultNoticeNamesSemester | controllers/adminController.js:268 | two result notices with the same message are for the same semester |
| Admin.AdmissionMail | controllers/adminController.js:204-210 | defines the admission email: the student's address, the subject "Admission Update" and the body below; UpdateAdmission states when it is attempted |
| Admin.AdmissionBody | controllers/adminController.js:207-209 | defines the admission email body; AdmissionBodyFee states its fee sentence |
| Admin.AdmissionNotice | controllers/adminController.js:212-216 | defines the admission in-app record; AdmissionNoticeNamesStatus states its text |
| Admin.AdmissionBodyFee | controllers/adminController.js:207-209 | the admission email body ends with "Please pay the full fee." exactly when the status is "approved" |
| Admin.AdmissionNoticeNamesStatus | controllers/adminController.js:212-216 | the admission notice reads "Admission " followed by the status, for the student, with channel in-app |
| Admin.WelcomeMail | controllers/adminController.js:407-411 | defines the welcome email sent to the new account's address; AddFaculty states when it is attempted |
| Admin.RegisteredEmailTaken | controllers/adminController.js:387-404 | once an account is saved, its address is found by the duplicate lookup |
| Admin.FreshEmailKeepsUnique | controllers/adminController.js:387-404 | saving an account whose address is not taken keeps addresses unique |
| Admin.CeilDiv | controllers/adminController.js:140 | the result c satisfies c−1 < n/d ≤ c for the exact quotient, which is `Math.ceil` of the division |
| Admin.Paginate | controllers/adminController.js:108-140 | page defaults to 1 and limit to 10; skip is (page−1)·limit; pages is the ceiling of total/limit, and has no number exactly when limit is 0 |
| Admin.PagesCoverTotal | controllers/adminController.js:130-140 | with a positive limit, (pages−1)·limit < total ≤ pages·limit; every page from 1 to pages starts inside the collection, and every later page starts past its end |
| Admin.AdminStore.Directory | controllers/adminController.js:535 | defines the collection recipients are looked up in: faculty exactly when userModel is "Faculty", students otherwise (also line 552) |
| Admin.AdminStore.UploadResults | controllers/adminController.js:225-277 | each rejection answers with its own status and message and writes nothing. An accepted upload with a subject that fails the schema's required checks answers 500 and writes nothing. Any other accepted upload appends exactly the graded result, then writes the student's email attempt, then, only if that was delivered, the "Result uploaded for semester" record, and answers with the result. A failed email leaves the result stored with no record. Results stay unique |
| Admin.AdminStore.SendNotification | controllers/adminController.js:517-547 | the outbox is extended exactly as the send loop (`Dispatch.Fanout`) describes. Recipients are looked up among faculty when userModel is "Faculty" and among students otherwise. The answer is the in-app record list when no email failed, and a server error otherwise |
| Admin.AdminStore.BroadcastNotification | controllers/adminController.js:549-583 | the outbox is extended exactly as `Dispatch.Broadcast` describes for the chosen collection's snapshot, and the answer reports the snapshot's size |
| Admin.AdminStore.UpdateAdmission | controllers/adminController.js:191-223 | an unknown admission answers 404 and writes nothing. Otherwise the status is updated in place and nothing else in the collection changes. If the student or course cannot be read, the handler fails before any email. Otherwise the email is attempted, then, only if delivered, the "Admission <status>" record is written |
| Admin.AdminStore.AddFaculty | controllers/adminController.js:384-417 | a taken address answers 400 and saves nothing. Otherwise the account with role faculty is appended and the welcome email attempted; the answer is the account only if the email was delivered. Addresses stay unique |
| Admin.AdminStore.AddCourse | controllers/adminController.js:279-302 | a missing department or category answers 404 and saves nothing. Otherwise one course is appended with the found ids. Every course keeps referring to a department and a category that exist |

## Left out

- Floating point: the percentage is an exact rational. JavaScript divides in binary floating point, which can differ from the exact value next to a threshold.
- JavaScript number width: integers are unbounded. JavaScript loses precision above 2^53, and `${n}` prints exponent form from 1e21 on, where `IntToString` prints every digit.
- Logging: the `console.log` and `console.error` calls (middleware/upload.js:9, 13, 46, 58, 65, 67, 109 and 112, and controllers/adminController.js:144 and 274) are output only and change nothing that is modelled.
- Fractional marks: marks are integers. The schema's `Number` also admits fractions, and JavaScript's truthiness of `NaN` is not modelled.
- Upload.Sanitize: works on Unicode scalar values. JavaScript replaces per UTF-16 code unit, so a character outside the Basic Multilingual Plane becomes two '-' there and one here.
- The email transport (`utils/notify` is not part of this model): an attempt and its outcome are recorded, and the outcome comes from the `Mailer` parameter.
- Mongoose itself is not modelled:
  - Of `save`'s validation, only the required checks on result subjects are modelled (a missing or empty name, or missing marks, fails the save). An absent subject name or mark is stored as "" or 0, which no saved document can hold. Cast errors, for example marks that are not a number, are not modelled, because inputs are typed values. The other required fields of a result are already guarded by the handler.
  - `populate` and `findByIdAndUpdate` semantics are not modelled. Lookups are first matches over sequences, and an updated admission is returned with ids rather than populated documents.
  - Query semantics when a request field is undefined are not modelled: request fields other than the result upload's are present strings.
  - Mongoose timestamps are not modelled.
- The `err.message` carried by a 500 response, and the rest of the HTTP status and response plumbing.
- `Date.now()`, the random file-name suffix and the new documents' ObjectIds become parameters (`now`, `suffix`, `newId`). ObjectId validation is not modelled.
- Password hashing in `addFaculty`: bcrypt is a foreign call, and the password is not stored in the model.
- `path.extname` and `path.basename`: the file name's base and extension are inputs.
- Directory creation, the multer wiring and the size limit: these are filesystem and library configuration.
- Request bodies of the wrong shape, for example `userIds` that is not an array: inputs are typed values.
- In `getAllContent`, the type filter, the regex search, the sort and the document fetch are not modelled, and neither is `parseInt` of query strings: page and limit are integers and only their arithmetic is modelled.
- Concurrency: the read-then-insert race on (roll number, semester) is out of scope, and calls are sequential.
- Course references in `AddCourse` point to departments and categories that are never deleted here. `deleteCourse` and the other delete handlers are outside this model.
- The remaining handlers are uniform find-or-404 pass-throughs with no logic of their own:
  - content CRUD and lookup: addContent, updateContent, deleteContent, getContentByType, getContentById;
  - listings and lookups: getDepartments, getCategories, getCourses, getUsers, getAdmissions, getAllFaculty, getAllStudents, getStudentById, getPayments, getNotifications;
  - updates and deletes: updateCourse, deleteCourse, updateFaculty, deleteFaculty, updateStudent, deleteStudent;
  - simple creation: addDepartment, addCategory;
  - file upload: uploadFile and its URL assembly.
- The `notifications` array that `broadcastNotification` fills but never returns.
- Admin.AdmissionBodyFee: states that the body *ends with* the fee sentence exactly when the status is approved, rather than *contains* it, because a free-text status can itself contain that sentence.

## Findings

| source | as written | input that shows it | evidently intended | confidence | as-written member | corrected member |
|---|---|---|---|---|---|---|
| middleware/upload.js:106-108 | `allowedTypes[type] \|\| allowedTypes.document` also finds properties inherited by every object, so the lookup returns a function or object instead of a list, and `allowed.includes` throws a TypeError | a request with `type` "toString" (or "constructor", "__proto__", "valueOf", ...) and any file | an unlisted type falls back to the document allow-list | not executed | Upload.FileFilterAsWritten, Upload.InheritedKeyBreaksFilter | Upload.FileFilter |
