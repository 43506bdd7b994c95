# bxu-library catalogue: a Dafny model

bxu-library is the catalogue of a university library. A Spring backend stores:

- subjects (*fanlar*);
- faculties, which are degree programmes, each of an education type (bachelor or master);
- faculty–subject links;
- books, which belong to a subject and may carry a stored PDF and image (attachments);
- literary works (*badiiy*) and audio books.

A React frontend shows the catalogue and an admin panel.

This project models the parts that carry rules:

- **The full-refresh importers** of `/update`, `/update/badiiy` and `/update/audio`.
  - `/update` wipes books, links and subjects, but never faculties.
  - It then walks `./fanlar`: each subject folder gives one subject. Each row of the folder's `yonalish.xlsx` finds or creates a faculty by code and appends a link. Each accepted file in the folder's `adabiyotlar` directory appends a book.
  - File names are decoded as `name_author_publisher_genre.ext` with Java's `split("_")` and `replace` semantics.
- **The incremental importer** `importBooksFromFanlar`.
  - It finds or creates subjects.
  - It copies each accepted file into attachment storage, saves an attachment and then a book pointing at it.
  - It aborts at the first copy that fails, for instance because the target already exists.
- **The REST handlers** for books, subjects, faculties and faculty–subject links.
  - Their uniqueness guards, and the update paths that bypass them.
  - Not-found and constraint failures.
  - The library-copy setting, attachment lookup, and the rows of the report spreadsheet.
- **The statistics grouping** by education type and the per-faculty subject statistics.
- **The frontend helpers**:
  - the five-page pagination windows and page steppers;
  - the upload-prefix sanitiser;
  - the save and submit guards with their payload id choice;
  - the filter-then-slice catalogue paging;
  - the `MM:SS` duration formatter.

## Model structure

**The store.** The database is a value `Db`: one `seq<Row<T>>` per table, a shared id counter, a UUID counter, and the set of stored file paths. A `Catalog.Store` object holds it.

- Handlers and importers that change the store are methods with `modifies store`.
- Each such method is proved equal to a specification function on `Db` (`ensures store.db == F(old(store.db), …)`).
- The properties of a handler or importer are stated on those functions and in lemmas about them.
- `Valid(db)` is the store invariant:
  - ids are distinct and below the counter;
  - faculty codes are unique, since the column is declared unique;
  - every foreign key resolves.
- Every handler and importer is proved to keep `Valid`.

**What the model takes as inputs.** The outside world becomes plain inputs:

- the directory tree (`FileTree`);
- the mapping sheet's typed cells (`MappingSheet`);
- whether a file copy succeeds;
- the current time;
- the rows returned by the aggregate queries;
- the answers of uploads.

Java and JavaScript library behaviour is written out in `JavaText` and `JsText`:

- `split`, `replace`, `Integer.parseInt`, the `(int)` cast of a double, `String.valueOf`;
- `toLowerCase`, `padStart`, `%`, `slice`, `||` and truthiness.

## Model

| member | source | states |
|---|---|---|
| OldAdminController.Accepted | back/src/main/java/com/example/backend/Controller/OldAdminController.java:133-143 | An entry is imported exactly when it is a regular file and Java's `split("_")` of its name gives at least four parts. The fields are then parts 0–2 and the genre from part 3; later parts are ignored. |
| OldAdminController.ImportRow | back/src/main/java/com/example/backend/Controller/OldAdminController.java:76-118 | A mapping row that fails to decode, or whose new faculty would lack an education type, changes nothing. Otherwise exactly one link to the folder's subject is appended, and its faculty carries the row's code. An existing faculty of that code is reused unchanged, so the first writer wins; a missing one is appended with the row's code, name and type. Only faculties, links and the id counter change. |
| OldAdminController.ImportRowValid | back/src/main/java/com/example/backend/Controller/OldAdminController.java:102-114 | A row keeps the store invariant: a faculty is created only for a free code and an existing type, and the link joins existing rows. |
| OldAdminController.ImportRows | back/src/main/java/com/example/backend/Controller/OldAdminController.java:74-119 | The rows of the sheet are applied in order. Only faculties and links grow, by at most one link per row, and every new link is to the folder's subject. |
| OldAdminController.ImportRowsValid | back/src/main/java/com/example/backend/Controller/OldAdminController.java:74-119 | A whole sheet keeps the store invariant. |
| OldAdminController.DuplicateRowsDuplicateLinks | back/src/main/java/com/example/backend/Controller/OldAdminController.java:113-114 | Two identical linking rows append two links with the same faculty and subject: the sheet import has no pair check. |
| OldAdminController.ImportRowKeepsCodesUnique | back/src/main/java/com/example/backend/Controller/OldAdminController.java:102-111 | A row never gives two faculties the same code. |
| OldAdminController.ImportBookFile | back/src/main/java/com/example/backend/Controller/OldAdminController.java:133-157 | One listing entry: only books grow. The listed cards grow by exactly the card the entry should give: none for a rejected entry; otherwise name, author, publisher, stripped genre, absolute path and `"Book from <subject>"`. Each new book is of this subject and time, with no attachments or library fields. |
| OldAdminController.ImportBookFiles | back/src/main/java/com/example/backend/Controller/OldAdminController.java:131-163 | The same for a whole `adabiyotlar` listing: one book per accepted file, in listing order. |
| OldAdminController.ImportBookFileValid | back/src/main/java/com/example/backend/Controller/OldAdminController.java:146-157 | One saved book keeps the store invariant when its subject exists. |
| OldAdminController.ImportBookFilesValid | back/src/main/java/com/example/backend/Controller/OldAdminController.java:131-163 | A folder's books keep the store invariant. |
| OldAdminController.RefreshSkipsNameGuard | back/src/main/java/com/example/backend/Controller/OldAdminController.java:146-157 | A file whose name already names a book of the subject still appends a book with that name and subject. |
| OldAdminController.SubjectAndSheet | back/src/main/java/com/example/backend/Controller/OldAdminController.java:56-125 | The subject is found by name, or created with `"Description for <name>"`, and then the sheet is imported. Books are untouched. A new subject is added exactly when the name was absent, names stay unique, and the returned id is the one stored under the name. |
| OldAdminController.SubjectAndSheetValid | back/src/main/java/com/example/backend/Controller/OldAdminController.java:56-125 | Those steps keep the store invariant and leave the subject in place. |
| OldAdminController.ImportDirBooks | back/src/main/java/com/example/backend/Controller/OldAdminController.java:128-164 | The walk aborts exactly when the folder's `adabiyotlar` cannot be listed, which is `requireNonNull` on a null listing. Otherwise the cards grow by exactly those of the accepted files. |
| OldAdminController.ImportDirBooksValid | back/src/main/java/com/example/backend/Controller/OldAdminController.java:128-164 | The book step keeps the store invariant. |
| OldAdminController.ImportSubjectDir | back/src/main/java/com/example/backend/Controller/OldAdminController.java:53-165 | One subject folder: a subject of the folder's name exists afterwards, and names stay unique. It aborts exactly on an unlistable `adabiyotlar`; otherwise it adds the folder's expected cards. Other tables are untouched. |
| OldAdminController.ImportSubjectDirValid | back/src/main/java/com/example/backend/Controller/OldAdminController.java:53-165 | A subject folder keeps the store invariant. |
| OldAdminController.ImportEntries | back/src/main/java/com/example/backend/Controller/OldAdminController.java:52-166 | The walk completes exactly when every folder is listable. The books then hold exactly the expected cards, folder by folder. Faculties and subjects only grow. |
| OldAdminController.ImportEntriesValid | back/src/main/java/com/example/backend/Controller/OldAdminController.java:52-166 | A walk keeps the store invariant. |
| OldAdminController.ImportEntriesStepValid | back/src/main/java/com/example/backend/Controller/OldAdminController.java:52-166 | One more root entry keeps the store invariant. |
| OldAdminController.WalkKeepsNamesUnique | back/src/main/java/com/example/backend/Controller/OldAdminController.java:56-65 | A walk never gives two subjects the same name. |
| OldAdminController.WalkSubjectsAreFolders | back/src/main/java/com/example/backend/Controller/OldAdminController.java:53-65 | Every subject a walk creates is named after a folder of the root. |
| OldAdminController.CompletedWalkCoversFolders | back/src/main/java/com/example/backend/Controller/OldAdminController.java:53-65 | A completed walk leaves a subject for every folder of the root. |
| OldAdminController.AbortedWalkStops | back/src/main/java/com/example/backend/Controller/OldAdminController.java:52-53 | Once the walk has aborted, later entries change nothing. |
| OldAdminController.BooksRefresh | back/src/main/java/com/example/backend/Controller/OldAdminController.java:33-170 | A missing or non-directory root gives a bad request before any `deleteAll`, with the store unchanged. Otherwise books, links and subjects are wiped, and faculties and other tables are kept. A null listing gives the exception with those three tables emptied. The answer is OK exactly when every folder is listable. Then the books are exactly the expected cards, every folder has its subject, and subject names are unique. The links are exactly `ExpectedLinks`, one for one and in order: each joins the subject named after its folder and the faculty with its row's code. |
| OldAdminController.ImportRowPlan | back/src/main/java/com/example/backend/Controller/OldAdminController.java:76-118 | One sheet row writes exactly the link `RowPlan` gives. A known code links to its faculty. An unknown code with an existing type links to a new faculty and becomes known. Any other row writes nothing. The known codes stay those of the faculty table. |
| OldAdminController.ImportRowsPlan | back/src/main/java/com/example/backend/Controller/OldAdminController.java:74-119 | A sheet writes exactly the links `SheetPlan` gives, row by row. |
| OldAdminController.SubjectAndSheetPlan | back/src/main/java/com/example/backend/Controller/OldAdminController.java:56-121 | A folder's subject and sheet steps write exactly its sheet's planned links, each to the folder's subject. |
| OldAdminController.ImportSubjectDirPlan | back/src/main/java/com/example/backend/Controller/OldAdminController.java:56-163 | A whole folder writes exactly its sheet's planned links; the book step writes none. |
| OldAdminController.ImportEntriesPlan | back/src/main/java/com/example/backend/Controller/OldAdminController.java:52-166 | A completed walk writes exactly the links `WalkPlan` gives, folder by folder. |
| OldAdminController.BooksRefreshValid | back/src/main/java/com/example/backend/Controller/OldAdminController.java:33-170 | The books refresh keeps the store invariant on every tree. |
| OldAdminController.ImportSheetRow | back/src/main/java/com/example/backend/Controller/OldAdminController.java:76-118 | The loop body equals `ImportRow` on the store. |
| OldAdminController.ImportSheet | back/src/main/java/com/example/backend/Controller/OldAdminController.java:74-119 | The row loop equals `ImportRows` on the store. |
| OldAdminController.ImportBookEntry | back/src/main/java/com/example/backend/Controller/OldAdminController.java:133-157 | The file loop body equals `ImportBookFile`. |
| OldAdminController.ImportBookFolder | back/src/main/java/com/example/backend/Controller/OldAdminController.java:131-163 | The file loop equals `ImportBookFiles`. |
| OldAdminController.ImportSubjectFolder | back/src/main/java/com/example/backend/Controller/OldAdminController.java:53-165 | The folder body equals `ImportSubjectDir`, and it reports whether it aborted. |
| OldAdminController.WalkRoot | back/src/main/java/com/example/backend/Controller/OldAdminController.java:52-166 | The folder loop equals `ImportEntries`, and it reports whether it completed. |
| OldAdminController.UpdateBooksList | back/src/main/java/com/example/backend/Controller/OldAdminController.java:33-170 | The handler's answer and new store are those of `BooksRefresh`, and it keeps the store invariant. |
| OldAdminController.ImportShelfFile | back/src/main/java/com/example/backend/Controller/OldAdminController.java:190-221 | One entry of the badiiy (or, at 246-277, audio) folder changes only that shelf and the id counter. |
| OldAdminController.ImportShelfFileItems | back/src/main/java/com/example/backend/Controller/OldAdminController.java:190-221 | An entry adds to the shelf exactly the item it should give. That is name, author and publisher, the genre without the shelf's extensions, the shelf's description and the absolute path; rejected entries give nothing. |
| OldAdminController.ImportShelfFilesOnlyShelf | back/src/main/java/com/example/backend/Controller/OldAdminController.java:190-221 | A shelf folder changes only its shelf and the id counter. |
| OldAdminController.ImportShelfFilesItems | back/src/main/java/com/example/backend/Controller/OldAdminController.java:190-221 | A shelf folder appends exactly the expected items, in listing order. |
| OldAdminController.ImportShelfFilesValid | back/src/main/java/com/example/backend/Controller/OldAdminController.java:190-221 | A shelf folder keeps the store invariant. |
| OldAdminController.ShelfRefresh | back/src/main/java/com/example/backend/Controller/OldAdminController.java:174-224 | Badiiy, and audio at 229-280. A missing or non-directory root gives a bad request before `deleteAll`, with the store unchanged. Only the shelf and the counter ever change. A null listing gives the exception with the shelf emptied. Otherwise the answer is the done message and the shelf holds exactly the expected items. |
| OldAdminController.ClearShelfValid | back/src/main/java/com/example/backend/Controller/OldAdminController.java:188 | Emptying a shelf keeps the store invariant. |
| OldAdminController.ShelfRefreshValid | back/src/main/java/com/example/backend/Controller/OldAdminController.java:174-224 | A shelf refresh keeps the store invariant. |
| OldAdminController.ImportShelfEntry | back/src/main/java/com/example/backend/Controller/OldAdminController.java:190-221 | The loop body equals `ImportShelfFile`. |
| OldAdminController.ImportShelfFolder | back/src/main/java/com/example/backend/Controller/OldAdminController.java:190-221 | The file loop equals `ImportShelfFiles`. |
| OldAdminController.RefreshShelf | back/src/main/java/com/example/backend/Controller/OldAdminController.java:174-224 | The handler step by step equals `ShelfRefresh`. |
| OldAdminController.UpdateBadiiyBooks | back/src/main/java/com/example/backend/Controller/OldAdminController.java:174-224 | `/update/badiiy` equals `ShelfRefresh` on the badiiy shelf and keeps the store invariant. |
| OldAdminController.UpdateAudioBooks | back/src/main/java/com/example/backend/Controller/OldAdminController.java:229-280 | `/update/audio` equals `ShelfRefresh` on the audio shelf and keeps the store invariant. |
| FileSystemImportService.ImportFile | back/src/main/java/com/example/backend/Services/FileSystemImportService/FileSystemImportService.java:54-97 | A name with fewer than four parts is passed over. An existing target fails with `TargetExists`, and a copy that fails fails with `CopyFailed`; both write nothing. Otherwise it records the copy under `backend/files/<subject>/<name>`, one attachment under the next UUID with prefix `/<subject>`, and one book pointing at it with no path and `"Imported from filesystem"`. |
| FileSystemImportService.ImportFileValid | back/src/main/java/com/example/backend/Services/FileSystemImportService/FileSystemImportService.java:54-97 | One file keeps the store invariant when its subject exists. |
| FileSystemImportService.StoreCopyValid | back/src/main/java/com/example/backend/Services/FileSystemImportService/FileSystemImportService.java:85-96 | A stored copy, its attachment and a book pointing at it keep the store invariant. |
| FileSystemImportService.ImportFiles | back/src/main/java/com/example/backend/Services/FileSystemImportService/FileSystemImportService.java:48-50 | A folder's files are imported in order up to the first failure, which is always a copy failure. |
| FileSystemImportService.ImportFilesDone | back/src/main/java/com/example/backend/Services/FileSystemImportService/FileSystemImportService.java:48-50 | A folder imported to the end adds one book and one attachment per accepted file and stores each of their copies. |
| FileSystemImportService.PairedTrans | back/src/main/java/com/example/backend/Services/FileSystemImportService/FileSystemImportService.java:65-78 | Pairing of new books with new attachments composes along a run. |
| FileSystemImportService.ImportFilesPaired | back/src/main/java/com/example/backend/Services/FileSystemImportService/FileSystemImportService.java:65-78 | Whatever the outcome, every book a folder adds points at its own new attachment, one to one. |
| FileSystemImportService.ImportFilesValid | back/src/main/java/com/example/backend/Services/FileSystemImportService/FileSystemImportService.java:48-50 | A folder keeps the store invariant. |
| FileSystemImportService.ImportFilesRerun | back/src/main/java/com/example/backend/Services/FileSystemImportService/FileSystemImportService.java:85-88 | With every copy of the folder already stored, the folder fails at its first accepted file and writes nothing. |
| FileSystemImportService.ImportDir | back/src/main/java/com/example/backend/Services/FileSystemImportService/FileSystemImportService.java:36-50 | The subject is found by name or created without a description. A missing `adabiyotlar` gives the subject but no books. A non-directory or unlistable one fails with the null-listing exception. Only subjects, books, attachments, copies and counters change. |
| FileSystemImportService.ImportDirs | back/src/main/java/com/example/backend/Services/FileSystemImportService/FileSystemImportService.java:34-51 | The folders are imported in order up to the first failure. Only the catalogue tables, copies and counters change, and they only grow. |
| FileSystemImportService.ImportBooksFromFanlar | back/src/main/java/com/example/backend/Services/FileSystemImportService/FileSystemImportService.java:27-52 | A missing or non-directory root fails with `IllegalStateException` before any write. Otherwise the folders are walked, and faculties, links and the other shelves are untouched. |
| FileSystemImportService.ImportDirPaired | back/src/main/java/com/example/backend/Services/FileSystemImportService/FileSystemImportService.java:36-50 | What one folder adds pairs books with attachments. |
| FileSystemImportService.ImportDirsPaired | back/src/main/java/com/example/backend/Services/FileSystemImportService/FileSystemImportService.java:34-51 | Everything a run adds pairs up: one attachment per new book, the book pointing at it. |
| FileSystemImportService.ImportDirsReadable | back/src/main/java/com/example/backend/Services/FileSystemImportService/FileSystemImportService.java:34-51 | A run that reaches its end has listed every folder. |
| FileSystemImportService.ImportDirsCovers | back/src/main/java/com/example/backend/Services/FileSystemImportService/FileSystemImportService.java:36-43 | A run that reaches its end has a subject for every folder. |
| FileSystemImportService.ImportDirsCounts | back/src/main/java/com/example/backend/Services/FileSystemImportService/FileSystemImportService.java:34-51 | A run that reaches its end adds one book and one attachment per accepted file and stores every copy. |
| FileSystemImportService.ImportDirsRerun | back/src/main/java/com/example/backend/Services/FileSystemImportService/FileSystemImportService.java:34-51 | With every folder's subject present and every copy stored, a walk writes nothing. |
| FileSystemImportService.ImportDirRerun | back/src/main/java/com/example/backend/Services/FileSystemImportService/FileSystemImportService.java:36-50 | A folder whose subject exists and whose copies are all stored writes nothing. |
| FileSystemImportService.RerunFails | back/src/main/java/com/example/backend/Services/FileSystemImportService/FileSystemImportService.java:88 | A second run over the same tree, after one that finished and stored a copy, fails with `TargetExists` at the first file and changes nothing. Re-importing never duplicates a book. |
| FileSystemImportService.ImportDirValid | back/src/main/java/com/example/backend/Services/FileSystemImportService/FileSystemImportService.java:36-50 | A folder keeps the store invariant. |
| FileSystemImportService.ImportDirsValid | back/src/main/java/com/example/backend/Services/FileSystemImportService/FileSystemImportService.java:34-51 | A run keeps the store invariant, however it ends. |
| FileSystemImportService.ImportFilesStops | back/src/main/java/com/example/backend/Services/FileSystemImportService/FileSystemImportService.java:48-50 | After a failure, later files are never processed. |
| FileSystemImportService.ImportDirsStops | back/src/main/java/com/example/backend/Services/FileSystemImportService/FileSystemImportService.java:34-51 | After a failure, later folders are never visited. |
| FileSystemImportService.SaveFileAsAttachment | back/src/main/java/com/example/backend/Services/FileSystemImportService/FileSystemImportService.java:81-97 | It copies first. An existing target or a failing copy gives that failure and leaves the store unchanged. Otherwise it records the copy and saves the attachment under the next UUID. |
| FileSystemImportService.ProcessBookFile | back/src/main/java/com/example/backend/Services/FileSystemImportService/FileSystemImportService.java:54-79 | It equals `ImportFile` on the store. |
| FileSystemImportService.ImportBookFolder | back/src/main/java/com/example/backend/Services/FileSystemImportService/FileSystemImportService.java:48-50 | The file loop equals `ImportFiles`. |
| FileSystemImportService.ImportSubjectFolder | back/src/main/java/com/example/backend/Services/FileSystemImportService/FileSystemImportService.java:36-50 | The folder body equals `ImportDir`. |
| FileSystemImportService.ImportFolders | back/src/main/java/com/example/backend/Services/FileSystemImportService/FileSystemImportService.java:34-51 | The folder loop equals `ImportDirs`. |
| FileSystemImportService.ImportBooksFromFanlarStore | back/src/main/java/com/example/backend/Services/FileSystemImportService/FileSystemImportService.java:27-52 | It equals `ImportBooksFromFanlar` on the store and keeps the store invariant. |
| FilenameDecoder.StripExtensions | back/src/main/java/com/example/backend/Controller/OldAdminController.java:143 | The `replace` chain over the extensions never lengthens the genre. |
| FilenameDecoder.Decode | back/src/main/java/com/example/backend/Controller/OldAdminController.java:134-143 | It gives fields exactly when `split("_")` gives at least four parts. Name, author and publisher then hold no `_`. |
| FilenameDecoder.DecodeEncoded | back/src/main/java/com/example/backend/Controller/OldAdminController.java:134-143 | Decoding `name_author_publisher_genre.ext` gives the first three fields verbatim and the stripped genre. |
| FilenameDecoder.ExtraPartsIgnored | back/src/main/java/com/example/backend/Controller/OldAdminController.java:140-143 | Parts after the fourth are ignored. |
| FilenameDecoder.TwoFieldsRejected | back/src/main/java/com/example/backend/Controller/OldAdminController.java:135-138 | A name of two `_`-separated fields is rejected. |
| FilenameDecoder.ThreeFieldsRejected | back/src/main/java/com/example/backend/Controller/OldAdminController.java:135-138 | A name of three fields is rejected. |
| FilenameDecoder.StripThree | back/src/main/java/com/example/backend/Controller/OldAdminController.java:143 | The three-extension chain is the three `replace` calls in order. |
| FilenameDecoder.RemoveMatching | back/src/main/java/com/example/backend/Controller/OldAdminController.java:143 | A matching extension is removed. |
| FilenameDecoder.RemoveNonMatching | back/src/main/java/com/example/backend/Controller/OldAdminController.java:143 | An extension that does not start with the removed one is kept. |
| FilenameDecoder.BookGenrePdf | back/src/main/java/com/example/backend/Controller/OldAdminController.java:143 | A `.pdf` book genre loses its extension. |
| FilenameDecoder.BookGenreDoc | back/src/main/java/com/example/backend/Controller/OldAdminController.java:143 | A `.doc` book genre loses its extension. |
| FilenameDecoder.BookGenreDocx | back/src/main/java/com/example/backend/Controller/OldAdminController.java:143 | A `.docx` book genre keeps a trailing `x`, because `.doc` is removed first. |
| FilenameDecoder.AudioGenreMp3 | back/src/main/java/com/example/backend/Controller/OldAdminController.java:258 | A `.mp3` audio genre loses its extension. |
| FilenameDecoder.AudioGenreWav | back/src/main/java/com/example/backend/Controller/OldAdminController.java:258 | A `.wav` audio genre loses its extension. |
| FilenameDecoder.AudioGenreFlac | back/src/main/java/com/example/backend/Controller/OldAdminController.java:258 | A `.flac` audio genre loses its extension. |
| FilenameDecoder.ImportGenre | back/src/main/java/com/example/backend/Services/FileSystemImportService/FileSystemImportService.java:63 | The incremental importer strips `.pdf` only; any other extension stays in the genre. |
| MappingSheet.EducationTypeId | back/src/main/java/com/example/backend/Controller/OldAdminController.java:79-91 | The id is the numeric cell cast to `int`, or `Integer.parseInt` of a string cell, which can fail. It is 1 for an absent, blank or other cell, and always in `int` range. |
| MappingSheet.StringValue | back/src/main/java/com/example/backend/Controller/OldAdminController.java:100 | `getStringCellValue` succeeds exactly on text and blank cells. |
| MappingSheet.DecodeRow | back/src/main/java/com/example/backend/Controller/OldAdminController.java:79-100 | A row maps exactly when its code cell is numeric, its name cell is present and a string, and its type cell is usable. |
| MappingSheet.CodeIsDecimalInt | back/src/main/java/com/example/backend/Controller/OldAdminController.java:92-99 | The faculty code is the code cell's value cast to `int`, written in decimal. |
| MappingSheet.HeaderRowSkipped | back/src/main/java/com/example/backend/Controller/OldAdminController.java:92-95 | A row whose code cell is text, such as the header, is skipped. |
| MappingSheet.NonIntegerEducationTypeSkipsRow | back/src/main/java/com/example/backend/Controller/OldAdminController.java:85 | A non-integer text in the type cell skips the row. |
| MappingSheet.EducationTypeDefaultsToOne | back/src/main/java/com/example/backend/Controller/OldAdminController.java:79-91 | Without a usable type cell the id is 1. |
| MappingSheet.EducationTypeSaturates | back/src/main/java/com/example/backend/Controller/OldAdminController.java:83 | A numeric type beyond the `int` range saturates to `Integer.MAX_VALUE`, as the cast does. |
| JavaText.ToInt32 | back/src/main/java/com/example/backend/Controller/OldAdminController.java:83 | The `(int)` cast of a double's integral part: the value itself in range, saturated outside it. |
| JavaText.Pieces | back/src/main/java/com/example/backend/Controller/OldAdminController.java:134 | The pieces between separators are never empty as a list and hold no separator. |
| JavaText.JoinPieces | back/src/main/java/com/example/backend/Controller/OldAdminController.java:134 | Gluing the pieces back with the separator gives the string. |
| JavaText.DropTrailingEmpty | back/src/main/java/com/example/backend/Controller/OldAdminController.java:134 | It gives the longest prefix that does not end in an empty piece. |
| JavaText.Split | back/src/main/java/com/example/backend/Controller/OldAdminController.java:134 | `split` gives `[s]` without a separator. Otherwise it gives the pieces with trailing empty ones dropped, none holding the separator. |
| JavaText.PiecesOfPlain | back/src/main/java/com/example/backend/Controller/OldAdminController.java:134 | A string without the separator is one piece. |
| JavaText.PiecesAfterPlain | back/src/main/java/com/example/backend/Controller/OldAdminController.java:134 | A plain piece followed by the separator comes off the front. |
| JavaText.SplitFour | back/src/main/java/com/example/backend/Controller/OldAdminController.java:134-142 | Four separator-free fields, the last non-empty, split back into exactly those fields. |
| JavaText.RemoveAll | back/src/main/java/com/example/backend/Controller/OldAdminController.java:143 | `replace(target, "")` never lengthens the string. |
| JavaText.RemoveAllSkipsPlain | back/src/main/java/com/example/backend/Controller/OldAdminController.java:143 | A prefix where the target cannot start passes through. |
| JavaText.RemoveAllPlain | back/src/main/java/com/example/backend/Controller/OldAdminController.java:143 | A string where the target cannot start is unchanged. |
| JavaText.RemoveAllAtTarget | back/src/main/java/com/example/backend/Controller/OldAdminController.java:143 | An occurrence at the front is removed, and scanning resumes after it. |
| JavaText.IntToString | back/src/main/java/com/example/backend/Controller/OldAdminController.java:99 | `String.valueOf(int)` is non-empty. |
| JavaText.ParseInt | back/src/main/java/com/example/backend/Controller/OldAdminController.java:85 | `Integer.parseInt` succeeds only within the `int` range and on a non-empty string. |
| JavaText.ParseIntRoundTrip | back/src/main/java/com/example/backend/Controller/OldAdminController.java:85 | `parseInt(String.valueOf(n)) == n` for every `int`. |
| JavaText.ParseIntUnsigned | back/src/main/java/com/example/backend/Controller/OldAdminController.java:85 | A run of digits parses to its value when that fits. |
| JavaText.ParseIntNegative | back/src/main/java/com/example/backend/Controller/OldAdminController.java:85 | A minus sign before digits negates the value when that fits. |
| JavaText.ParseIntRejectsNonNumeric | back/src/main/java/com/example/backend/Controller/OldAdminController.java:85 | A string not starting with a sign or a digit does not parse. |
| Registry.BumpValid | back/src/main/java/com/example/backend/Controller/OldAdminController.java:157 | Moving the id counter on keeps the store invariant. |
| Registry.InsertSubjectValid | back/src/main/java/com/example/backend/Controller/OldAdminController.java:58-64 | Saving a new subject keeps the store invariant. |
| Registry.InsertFacultyValid | back/src/main/java/com/example/backend/Controller/OldAdminController.java:104-110 | Saving a faculty with a free code and an existing type keeps the store invariant. |
| Registry.InsertLinkValid | back/src/main/java/com/example/backend/Controller/OldAdminController.java:113-114 | Saving a link between existing rows keeps the store invariant. |
| Registry.InsertBookValid | back/src/main/java/com/example/backend/Controller/OldAdminController.java:157 | Saving a book whose subject and attachments exist keeps the store invariant. |
| Registry.InsertBadiiyValid | back/src/main/java/com/example/backend/Controller/OldAdminController.java:214 | Saving a literary work keeps the store invariant. |
| Registry.InsertAudioValid | back/src/main/java/com/example/backend/Controller/OldAdminController.java:270 | Saving an audio book keeps the store invariant. |
| Registry.InsertAttachmentValid | back/src/main/java/com/example/backend/Services/FileSystemImportService/FileSystemImportService.java:90-96 | Saving an attachment under a fresh UUID keeps the store invariant. |
| Registry.FindOrCreateSubject | back/src/main/java/com/example/backend/Controller/OldAdminController.java:56-65 | Afterwards a subject of that name exists and the id is the first one of that name. An existing name leaves the store unchanged. A new one appends exactly one subject. Names stay unique. |
| Registry.FindOrCreateSubjectValid | back/src/main/java/com/example/backend/Controller/OldAdminController.java:56-65 | Finding or creating keeps the store invariant, and the id resolves. |
| Registry.FindOrCreateSubjectIdempotent | back/src/main/java/com/example/backend/Services/FileSystemImportService/FileSystemImportService.java:36-43 | A second find-or-create of the same name changes nothing and gives the same id. |
| Registry.FirstNameAfterAppend | back/src/main/java/com/example/backend/Controller/OldAdminController.java:56-65 | An absent name is first found in the row appended with it. |
| Registry.FindOrCreateFaculty | back/src/main/java/com/example/backend/Controller/OldAdminController.java:102-111 | A known code is found unchanged. An unknown code with a missing type fails (`orElseThrow`). Otherwise one faculty is appended with that code, name and type. |
| Registry.FindOrCreateFacultyValid | back/src/main/java/com/example/backend/Controller/OldAdminController.java:102-111 | A faculty created by code keeps the store invariant. |
| Registry.WipeCatalogValid | back/src/main/java/com/example/backend/Controller/OldAdminController.java:47-50 | Deleting books, links and subjects together keeps the store invariant; faculties survive. |
| Catalog.Store.constructor | back/src/main/java/com/example/backend/Config/AutoRun.java:29-51 | The store starts from the given state, such as the seeded one. |
| Catalog.Find | back/src/main/java/com/example/backend/Controller/BooksController.java:145-146 | `findById` finds a row with that id exactly when one exists. |
| Catalog.FindUnique | back/src/main/java/com/example/backend/Controller/BooksController.java:145-146 | In a table with distinct ids the row found is the only one with that id. |
| Catalog.RemoveAt | back/src/main/java/com/example/backend/Controller/BooksController.java:194 | `deleteById` removes exactly the row at that position and keeps the order of the others. |
| Catalog.RemoveAtHas | back/src/main/java/com/example/backend/Controller/BooksController.java:194 | Afterwards the id is gone and every other id is present exactly as before. |
| Catalog.FindSubjectByName | back/src/main/java/com/example/backend/Repository/SubjectRepo.java:11-12 | `findByName` with `LIMIT 1` gives a subject of that name, or none when no subject has it. The query has no `ORDER BY`; the model takes the earliest row. |
| Catalog.FindSubjectByNameExtend | back/src/main/java/com/example/backend/Repository/SubjectRepo.java:11-12 | Appending rows does not change where a name is first found. |
| Catalog.NamesUniqueAppend | back/src/main/java/com/example/backend/Controller/SubjectController.java:28-30 | Appending a subject of a fresh name keeps names unique. |
| Catalog.FindFacultyByCode | back/src/main/java/com/example/backend/Repository/FacultyRepo.java:16 | `findByCode` finds a faculty of that code, or none when no faculty has it. |
| Catalog.SeedNames | back/src/main/java/com/example/backend/Config/AutoRun.java:37-48 | Twelve programmes are seeded. |
| Catalog.SeedFaculties | back/src/main/java/com/example/backend/Config/AutoRun.java:36-50 | The seeded faculty rows have ids 1, 2 and 4–13, the seeded codes, and education type 1. |
| Catalog.Seeded | back/src/main/java/com/example/backend/Config/AutoRun.java:29-51 | The start-up state: twelve bachelor faculties with the seeded codes, and no subjects, links or books. |
| Catalog.SeededValid | back/src/main/java/com/example/backend/Config/AutoRun.java:29-51 | The start-up state satisfies the store invariant. |
| Catalog.SeedCodesDistinct | back/src/main/java/com/example/backend/Config/AutoRun.java:37-48 | No two seeded programmes share a code. |
| FileTree.SubjectsForGrow | back/src/main/java/com/example/backend/Controller/OldAdminController.java:56-65 | Subjects are only appended, so a folder once covered stays covered. |
| FileTree.SubjectsForStep | back/src/main/java/com/example/backend/Controller/OldAdminController.java:53-65 | Covering the earlier entries and the last folder covers them all. |
| BooksController.GetAttachment | back/src/main/java/com/example/backend/Controller/BooksController.java:201-205 | A null id gives no attachment. A stored id gives itself. An unknown id fails. |
| BooksController.GetOne | back/src/main/java/com/example/backend/Controller/BooksController.java:142-149 | It answers with the book of that id exactly when one exists; otherwise it fails with not found. |
| BooksController.Create | back/src/main/java/com/example/backend/Controller/BooksController.java:38-66 | An unknown subject fails. A name already used in the subject is a bad request. An unknown attachment fails. The handler succeeds exactly when none of these holds, and then saves exactly the new book under the next id. Failures write nothing. |
| BooksController.CreateKeepsNoDuplicates | back/src/main/java/com/example/backend/Controller/BooksController.java:44-46 | Through `create` no two books share name and subject, and after success the pair is present. |
| BooksController.CreateValid | back/src/main/java/com/example/backend/Controller/BooksController.java:38-66 | `create` keeps the store invariant. |
| BooksController.Update | back/src/main/java/com/example/backend/Controller/BooksController.java:154-182 | An unknown book, subject or non-null attachment fails and writes nothing. Otherwise the book's row is rewritten in place with the edited fields. |
| BooksController.EditedFields | back/src/main/java/com/example/backend/Controller/BooksController.java:166-178 | The edit writes name, description, author, publisher, genre, path and subject. It replaces image or pdf only when a new id is given, so it never clears one. `createdAt` and the library fields are kept. |
| BooksController.UpdateSkipsNameGuard | back/src/main/java/com/example/backend/Controller/BooksController.java:154-182 | Renaming a book to the name of another book of the same subject succeeds and breaks name uniqueness. |
| BooksController.UpdateValid | back/src/main/java/com/example/backend/Controller/BooksController.java:154-182 | `update` keeps the store invariant. |
| BooksController.UpdateBook | back/src/main/java/com/example/backend/Controller/BooksController.java:154-182 | The handler step by step equals `Update`. |
| BooksController.Delete | back/src/main/java/com/example/backend/Controller/BooksController.java:187-196 | An absent id gives not found and removes nothing. An existing id always succeeds, and exactly that row is removed. |
| BooksController.DeleteRemovesExactly | back/src/main/java/com/example/backend/Controller/BooksController.java:190-195 | After a delete the id is gone and every other book is present exactly as before. |
| BooksController.DeleteValid | back/src/main/java/com/example/backend/Controller/BooksController.java:187-196 | A delete keeps the store invariant. |
| BooksController.PutBookInLibrary | back/src/main/java/com/example/backend/Controller/BooksController.java:227-241 | An unknown id gives not found and writes nothing. A found id always succeeds, and only the flag and the count change: a count of 0 stores flag false and 0, and any other count, negative ones included, stores flag true and that count. |
| BooksController.PutBookInLibraryValid | back/src/main/java/com/example/backend/Controller/BooksController.java:227-241 | The library setting keeps the store invariant. |
| BooksController.PutInLibrary | back/src/main/java/com/example/backend/Controller/BooksController.java:227-241 | The handler step by step equals `PutBookInLibrary`. |
| BooksController.LinksOf | back/src/main/java/com/example/backend/Controller/BooksController.java:284-285 | A faculty's links are stored links of that faculty. |
| BooksController.BooksOf | back/src/main/java/com/example/backend/Controller/BooksController.java:290 | A subject's books are stored books of that subject. |
| BooksController.BookEntries | back/src/main/java/com/example/backend/Controller/BooksController.java:292-312 | One report entry per book of the link. |
| BooksController.Line | back/src/main/java/com/example/backend/Controller/BooksController.java:293-311 | A data row has its number and the link `https://library.bxu.uz/book/<id>`. Its library column is "Ha" exactly when `isHaveLibrary` is TRUE, so null gives "Yo‘q". Its count is `libraryCount`, or 0 when null. |
| BooksController.ReportLines | back/src/main/java/com/example/backend/Controller/BooksController.java:278-314 | The rows are the entries of the nested faculty, link and book loops, numbered 1, 2, 3, … with no gap. |
| BooksController.FacultyLines | back/src/main/java/com/example/backend/Controller/BooksController.java:282-314 | The loop over a faculty's links continues the numbering over that faculty's entries. |
| BooksController.LinkLines | back/src/main/java/com/example/backend/Controller/BooksController.java:292-312 | The loop over a link's books continues the numbering over that link's entries. |
| BooksController.AppearancesAppend | back/src/main/java/com/example/backend/Controller/BooksController.java:280-314 | Appearances of a book add up over concatenated entries. |
| BooksController.BookEntriesAppearances | back/src/main/java/com/example/backend/Controller/BooksController.java:292-312 | Entries for a list of books show each book as often as the list holds it. |
| BooksController.BooksOfCopies | back/src/main/java/com/example/backend/Controller/BooksController.java:290 | Filtering by subject keeps every copy of a book of that subject and none of the others. |
| BooksController.CopiesAbsent | back/src/main/java/com/example/backend/Controller/BooksController.java:290 | A book not in a list has no copies in it. |
| BooksController.CopiesInTable | back/src/main/java/com/example/backend/Controller/BooksController.java:290 | In a table with distinct ids every stored book occurs once. |
| BooksController.FacultyEntriesAppearances | back/src/main/java/com/example/backend/Controller/BooksController.java:287-313 | A faculty shows a book once per link of the faculty to the book's subject. |
| BooksController.EntriesAppearances | back/src/main/java/com/example/backend/Controller/BooksController.java:280-314 | The report shows a stored book once for every (faculty, link) pair that joins its subject. |
| BooksController.BookEntriesSound | back/src/main/java/com/example/backend/Controller/BooksController.java:292-312 | Every entry of a link is made of a listed faculty, a subject that faculty is linked to, and a stored book of it. |
| BooksController.FacultyEntriesSound | back/src/main/java/com/example/backend/Controller/BooksController.java:287-313 | Every entry of a faculty is sound in the same sense. |
| BooksController.EntriesSound | back/src/main/java/com/example/backend/Controller/BooksController.java:280-314 | Every entry of the report is sound. |
| SubjectController.Create | back/src/main/java/com/example/backend/Controller/SubjectController.java:25-42 | A name already in use is a bad request with the store unchanged, and only then. Otherwise the subject is saved under the next id with both timestamps set to now. |
| SubjectController.CreateKeepsNamesUnique | back/src/main/java/com/example/backend/Controller/SubjectController.java:28-30 | Through `create` subject names stay unique, and after success the name is found at the new row. |
| SubjectController.CreateValid | back/src/main/java/com/example/backend/Controller/SubjectController.java:25-42 | `create` keeps the store invariant. |
| SubjectController.FindOne | back/src/main/java/com/example/backend/Controller/SubjectController.java:61-68 | It gives the subject of that id exactly when one exists; otherwise it fails. |
| SubjectController.Update | back/src/main/java/com/example/backend/Controller/SubjectController.java:73-89 | An unknown id fails, and only then. Otherwise name and description are overwritten, `updatedAt` becomes now and `createdAt` is kept. |
| SubjectController.UpdateSkipsNameGuard | back/src/main/java/com/example/backend/Controller/SubjectController.java:73-89 | Renaming a subject to another subject's name succeeds and breaks name uniqueness. |
| SubjectController.UpdateValid | back/src/main/java/com/example/backend/Controller/SubjectController.java:73-89 | `update` keeps the store invariant. |
| SubjectController.UpdateSubject | back/src/main/java/com/example/backend/Controller/SubjectController.java:73-89 | The handler step by step equals `Update`. |
| SubjectController.Delete | back/src/main/java/com/example/backend/Controller/SubjectController.java:94-103 | An absent id gives not found. A subject still linked or holding books fails on the foreign key. Otherwise exactly that row is removed. |
| SubjectController.DeleteRemovesExactly | back/src/main/java/com/example/backend/Controller/SubjectController.java:97-101 | After a delete the id is gone and every other subject is present as before. |
| SubjectController.DeleteValid | back/src/main/java/com/example/backend/Controller/SubjectController.java:94-103 | A delete keeps the store invariant. |
| FacultyController.ToView | back/src/main/java/com/example/backend/Controller/FacultyController.java:116-127 | `toDTO` copies id, code and name. `educationTypeId` is null exactly when the faculty has no type. |
| FacultyController.FindOne | back/src/main/java/com/example/backend/Controller/FacultyController.java:66-73 | It gives the view of the faculty of that id exactly when one exists; otherwise it fails. |
| FacultyController.Create | back/src/main/java/com/example/backend/Controller/FacultyController.java:27-46 | A code already in use is a bad request, checked before the type. An unknown type fails. Success, exactly when neither holds, stores exactly the given code, name and type. Failures write nothing. |
| FacultyController.CreateValid | back/src/main/java/com/example/backend/Controller/FacultyController.java:27-46 | `create` keeps the store invariant, codes unique included. |
| FacultyController.Update | back/src/main/java/com/example/backend/Controller/FacultyController.java:78-97 | An unknown faculty or type fails. A code taken by another faculty fails only at the unique column. The update succeeds exactly when none of these applies, and then code, name and type are overwritten in place. |
| FacultyController.UpdateValid | back/src/main/java/com/example/backend/Controller/FacultyController.java:78-97 | `update` keeps the store invariant. |
| FacultyController.UpdateFaculty | back/src/main/java/com/example/backend/Controller/FacultyController.java:78-97 | The handler step by step equals `Update`. |
| FacultyController.Delete | back/src/main/java/com/example/backend/Controller/FacultyController.java:102-111 | An absent id gives not found. A faculty still linked fails on the foreign key. Otherwise exactly that row is removed. |
| FacultyController.DeleteRemovesExactly | back/src/main/java/com/example/backend/Controller/FacultyController.java:105-109 | After a delete the id is gone and every other faculty is present as before. |
| FacultyController.DeleteValid | back/src/main/java/com/example/backend/Controller/FacultyController.java:102-111 | A delete keeps the store invariant. |
| FacultySubjectController.Create | back/src/main/java/com/example/backend/Controller/FacultySubjectController.java:30-52 | A pair already linked is a bad request, checked before the lookups. An unknown faculty, then an unknown subject, fails. Success saves exactly one link of the pair; failures write nothing. |
| FacultySubjectController.CreateKeepsPairsUnique | back/src/main/java/com/example/backend/Controller/FacultySubjectController.java:33-36 | Through `create` no pair is linked twice, and after success the pair is linked. |
| FacultySubjectController.CreateValid | back/src/main/java/com/example/backend/Controller/FacultySubjectController.java:30-52 | `create` keeps the store invariant. |
| FacultySubjectController.Update | back/src/main/java/com/example/backend/Controller/FacultySubjectController.java:85-106 | An unknown link, faculty or subject fails. Otherwise the link is rewritten to the pair, with no pair check. |
| FacultySubjectController.UpdateSkipsPairGuard | back/src/main/java/com/example/backend/Controller/FacultySubjectController.java:91-103 | Pointing a link at a pair another link has succeeds and breaks pair uniqueness. |
| FacultySubjectController.UpdateValid | back/src/main/java/com/example/backend/Controller/FacultySubjectController.java:85-106 | `update` keeps the store invariant. |
| FacultySubjectController.UpdateLink | back/src/main/java/com/example/backend/Controller/FacultySubjectController.java:85-106 | The handler step by step equals `Update`. |
| FacultySubjectController.Delete | back/src/main/java/com/example/backend/Controller/FacultySubjectController.java:111-120 | An absent id gives not found. An existing id always succeeds, and exactly that row is removed. |
| FacultySubjectController.DeleteRemovesExactly | back/src/main/java/com/example/backend/Controller/FacultySubjectController.java:114-118 | After a delete the id is gone and every other link is present as before. |
| FacultySubjectController.DeleteValid | back/src/main/java/com/example/backend/Controller/FacultySubjectController.java:111-120 | A delete keeps the store invariant. |
| StatisticController.AssocLastWins | back/src/main/java/com/example/backend/Controller/StatisticController.java:90-101 | The map built with `put` has exactly the keys of the rows. Each key holds the value of its last row. |
| StatisticController.BuildMap | back/src/main/java/com/example/backend/Controller/StatisticController.java:90-101 | The `put` loop builds that map. |
| StatisticController.OfTypeNone | back/src/main/java/com/example/backend/Controller/StatisticController.java:103-135 | Without a row of a type there are no entries of it. |
| StatisticController.GroupKeys | back/src/main/java/com/example/backend/Controller/StatisticController.java:103-135 | There is a group for exactly the types that occur, keyed by its own id. |
| StatisticController.GroupFaculties | back/src/main/java/com/example/backend/Controller/StatisticController.java:118-134 | A group's faculty list holds one entry per row of its type, in input order. |
| StatisticController.GroupName | back/src/main/java/com/example/backend/Controller/StatisticController.java:111-116 | A group's name comes from the first row of its type, as `putIfAbsent` keeps it. |
| StatisticController.StatCounts | back/src/main/java/com/example/backend/Controller/StatisticController.java:124-132 | A faculty's subject count is that of its last count row for it, or 0 without one. Both book totals are 0 without a book row for it. |
| StatisticController.EducationTypeFacultyStats | back/src/main/java/com/example/backend/Controller/StatisticController.java:83-138 | The handler's maps and grouping loop give exactly `Groups` over the built maps. |
| StatisticController.FacultySubjectStats | back/src/main/java/com/example/backend/Controller/StatisticController.java:143-184 | An unknown faculty fails, and only then. Otherwise there is one entry per subject row, in order, with the totals of its last count row or zeros. |
| AdminBooks.PageNumbers | frontend/src/admin/Books.js:125-147 | The window has length `min(totalPages, 5)`, or 0 for no pages. It is consecutive and lies in `[0, totalPages)`. It contains `currentPage` when that is in range, and over five pages it starts at the clamped `currentPage - 2`. The badiiy page runs the same code (AdminBadiiy.jsx 173-197). |
| AdminBooks.AdminPager.constructor | frontend/src/admin/Books.js:117-123 | The pager starts on page 0 of no pages. |
| AdminBooks.AdminPager.HandlePageChange | frontend/src/admin/Books.js:117-123 | Only a page in `[0, totalPages)` is taken; any other request leaves the state as it is. The badiiy page, at AdminBadiiy.jsx 166-170, is the same. |
| AdminBooks.KeepPrefixChars | frontend/src/admin/Books.js:160-163 | It keeps exactly the `[a-z0-9_]` characters, in order and with their counts. |
| AdminBooks.SafePrefix | frontend/src/admin/Books.js:160-163 | The prefix contains only `[a-z0-9_]`. |
| AdminBooks.SafePrefixFixed | frontend/src/admin/Books.js:160-163 | A name of prefix characters is its own prefix. |
| AdminBooks.SafePrefixIdempotent | frontend/src/admin/Books.js:160-163 | Sanitising twice equals sanitising once. |
| AdminBooks.SafePrefixRun | frontend/src/admin/Books.js:160-163 | A leading whitespace run, however long, becomes exactly one `_`. |
| AdminBooks.LowerRun | frontend/src/admin/Books.js:161 | Lower-casing keeps a whitespace run and does not start the rest with whitespace. |
| AdminBooks.LowerHead | frontend/src/admin/Books.js:161 | The lower case of a string not starting with whitespace does not start with it. |
| AdminBooks.FindSubject | frontend/src/admin/Books.js:153-154 | It gives the first subject whose id is loosely equal to the form's value, or none when no subject's id is. |
| AdminBooks.UploadPrefix | frontend/src/admin/Books.js:152-167 | There is no upload when no subject matches. Otherwise the prefix is `/` followed by that subject's safe prefix. |
| AdminBooks.HandleSubmit | frontend/src/admin/Books.js:205-218 | A missing name, subject or pdf is refused with the alert, and only then. Otherwise the form is sent unchanged: PUT when editing, POST otherwise. |
| AdminBadiiy.PayloadId | frontend/src/admin/AdminBadiiy.jsx:106-114 | Without a chosen `File` the form's id is kept. With one, the uploaded id is used when truthy; otherwise it falls back to the form value. |
| AdminBadiiy.HandleSave | frontend/src/admin/AdminBadiiy.jsx:88-135 | A missing name is refused, and only then. A failed upload ends the save. Otherwise the payload has the form's fields and the ids chosen by `PayloadId`, sent by PUT when editing and POST otherwise. |
| FrontendForms.Or | frontend/src/admin/AdminBadiiy.jsx:106-114 | `a \|\| b`: `a` when it is truthy, otherwise `b`. The result is truthy exactly when either operand is. |
| FrontendForms.Target | frontend/src/admin/AdminBadiiy.jsx:117-121 | PUT to the edited id exactly when an id other than 0 is set, otherwise POST, carrying the payload. |
| BooksTable.IgnoresCase | frontend/src/components/BooksTable.jsx:73-75 | The search ignores case in Cyrillic as in Latin script: `КИТОБ` finds `китоб`, and `kitob` finds `KITOB`. |
| BooksTable.FilterText | frontend/src/components/BooksTable.jsx:71-77 | It keeps exactly the books whose name, author or publisher contains the lower-cased term; a missing field never matches. |
| BooksTable.FilterSubject | frontend/src/components/BooksTable.jsx:79-83 | It keeps exactly the books of the selected subject. |
| BooksTable.FilteredBooks | frontend/src/components/BooksTable.jsx:68-86 | With no term and no subject it gives the books unchanged. A book is kept exactly when it passes the filters that are on. |
| BooksTable.FilteredBooksIsKeepAll | frontend/src/components/BooksTable.jsx:68-86 | The two filters in a row equal one pass with both tests, preserving order. |
| BooksTable.TextThenSubject | frontend/src/components/BooksTable.jsx:71-83 | The subject filter after the text filter equals the combined pass. |
| BooksTable.SubjectOnly | frontend/src/components/BooksTable.jsx:79-83 | The subject filter alone equals the combined pass without a term. |
| BooksTable.TextOnly | frontend/src/components/BooksTable.jsx:71-77 | The text filter alone equals the combined pass without a subject. |
| BooksTable.KeepAllEverything | frontend/src/components/BooksTable.jsx:69-85 | Without term or subject everything is kept. |
| BooksTable.FilterSubjectAppend | frontend/src/components/BooksTable.jsx:79-83 | The subject filter distributes over concatenation. |
| BooksTable.SliceIndex | frontend/src/components/BooksTable.jsx:107 | A `slice` index is clamped to `[0, n]` and is exact within it. |
| BooksTable.Slice | frontend/src/components/BooksTable.jsx:107 | `slice(b, e)` for `0 <= b <= e` gives the clamped subsequence. |
| BooksTable.CurrentBooks | frontend/src/components/BooksTable.jsx:105-107 | Page `p` is the slice `[(p-1)*10, p*10)` of the filtered list, at most 10 books. |
| BooksTable.TotalPages | frontend/src/components/BooksTable.jsx:108 | `ceil(n / 10)`: the fewest pages of ten holding `n` books, 0 exactly for none. |
| BooksTable.PagesUpToPrefix | frontend/src/components/BooksTable.jsx:105-108 | The first `k` pages are the first `10k` books. |
| BooksTable.PagesPartition | frontend/src/components/BooksTable.jsx:105-108 | Pages 1 to `totalPages`, laid end to end, give the filtered list, and pages beyond are empty. |
| BooksTable.PageWindow | frontend/src/components/BooksTable.jsx:541-552 | The window has `min(5, totalPages)` consecutive numbers in `[1, totalPages]` and contains `currentPage` when that is in range. |
| BooksTable.Catalog.constructor | frontend/src/components/BooksTable.jsx:46-56 | The catalogue starts with no books, no term, no subject and page 1. |
| BooksTable.Catalog.HandlePrevPage | frontend/src/components/BooksTable.jsx:169-173 | It moves one page back, never below page 1, and keeps the page in range. |
| BooksTable.Catalog.HandleNextPage | frontend/src/components/BooksTable.jsx:176-180 | It moves one page on, never past `totalPages`, and keeps the page in range. |
| BooksTable.Catalog.Paginate | frontend/src/components/BooksTable.jsx:166 | A window button moves to that page. |
| BooksTable.Catalog.SetSearchTerm | frontend/src/components/BooksTable.jsx:183-185 | A new term resets to page 1, and the page stays in range. |
| BooksTable.Catalog.SetSelectedSubject | frontend/src/components/BooksTable.jsx:183-185 | A new subject resets to page 1, and the page stays in range. |
| BooksTable.Catalog.LoadBooks | frontend/src/components/BooksTable.jsx:46-56 | The loaded books replace the list, and nothing else changes. |
| AdminAudio.FormatDuration | frontend/src/admin/AdminAudio.jsx:241-246 | It gives `00:00` for a missing, not-a-number or zero duration. Otherwise it gives the floored minutes and JavaScript's truncating remainder, each padded to two digits. The public audio page runs the same code (AudioBooks.jsx 197-202), and its `formatTime` delegates to it. |
| AdminAudio.TwoDigitsValue | frontend/src/admin/AdminAudio.jsx:244-245 | A padded field reads back as its number, and a number below 100 fills exactly two characters. |
| AdminAudio.LeadingZero | frontend/src/admin/AdminAudio.jsx:244-245 | Padding with `0` keeps a field's value. |
| AdminAudio.ClockFields | frontend/src/admin/AdminAudio.jsx:245 | A well-formed `MM:SS` text splits into its digit fields, the seconds two digits wide. |
| AdminAudio.ReadDuration | frontend/src/admin/AdminAudio.jsx:245 | Reading `MM:SS` back gives a non-negative number of seconds. |
| AdminAudio.ClockFieldsJoin | frontend/src/admin/AdminAudio.jsx:245 | Joining two fields and splitting again gives them back. |
| AdminAudio.FormatDurationNegative | frontend/src/admin/AdminAudio.jsx:243-245 | A negative duration is shown with a leading minus sign. |
| AdminAudio.FormatDurationRoundTrip | frontend/src/admin/AdminAudio.jsx:241-246 | Reading back `mins * 60 + secs` from the formatted text recovers every whole duration. |
| AdminAudio.ReadClock | frontend/src/admin/AdminAudio.jsx:243-245 | A clock with seconds below 60 reads back as `mins * 60 + secs`. |
| AdminAudio.ReadJoin | frontend/src/admin/AdminAudio.jsx:245 | Joined digit fields read back as `mins * 60 + secs`. |
| AdminAudio.ReadZero | frontend/src/admin/AdminAudio.jsx:242 | `00:00` reads back as 0. |
| AdminAudio.HandleSave | frontend/src/admin/AdminAudio.jsx:304-349 | A missing name or author is refused, and only then. A failed upload ends the save. Otherwise the payload copies name, author, publisher, genre and description from the form. Uploaded ids replace the form's ids where a file was chosen. The payload is sent by PUT when editing and POST otherwise. |
| AudioBooks.PageButtons | frontend/src/components/AudioBooks.jsx:484-495 | There are `totalPages` buttons; button `i` selects page `i` and is labelled `i + 1`. |
| AudioBooks.LabelOf | frontend/src/components/AudioBooks.jsx:494 | A label reads back as `i + 1`. |
| AudioBooks.AudioPager.constructor | frontend/src/components/AudioBooks.jsx:39-40 | The pager starts on page 0. |
| AudioBooks.AudioPager.Previous | frontend/src/components/AudioBooks.jsx:477-478 | Enabled away from page 0: one page back, staying in range. |
| AudioBooks.AudioPager.Next | frontend/src/components/AudioBooks.jsx:499-500 | Enabled away from the last page: one page on, staying in range. |
| AudioBooks.AudioPager.Select | frontend/src/components/AudioBooks.jsx:484-495 | A numbered button selects its page. |
| JsText.NumberToString | frontend/src/admin/AdminAudio.jsx:244-245 | `String(n)` reads back as `n`, with a minus sign for negatives. |
| JsText.TruncRem | frontend/src/admin/AdminAudio.jsx:244 | JavaScript `%` equals Euclidean `%` for non-negative operands and takes the dividend's sign otherwise. |
| JsText.PadStart2 | frontend/src/admin/AdminAudio.jsx:244-245 | `padStart(2, "0")` keeps the string as a suffix and fills up to two characters with `0`. |
| JsText.Lower | frontend/src/components/BooksTable.jsx:73-75 | The lower case of an ASCII, Latin-1 or Cyrillic capital is not itself a capital. |
| JsText.LowerChar | frontend/src/admin/Books.js:161 | A lower-cased character is never a capital of those scripts. |
| JsText.ToLowerCase | frontend/src/admin/Books.js:161 | `toLowerCase` never shortens a string and leaves no capital of those scripts. |
| JsText.ToLowerCaseAppend | frontend/src/admin/Books.js:161 | `toLowerCase` distributes over concatenation. |
| JsText.ToLowerCaseIdempotent | frontend/src/admin/Books.js:161 | Lower-casing twice equals lower-casing once. |
| JsText.LowerCapitals | frontend/src/components/BooksTable.jsx:73-75 | A string of capitals is lower-cased letter by letter. |
| JsText.LowerCharFixed | frontend/src/admin/Books.js:161 | A string without capitals is left unchanged. |
| JsText.DropWhitespace | frontend/src/admin/Books.js:162 | It drops exactly the leading whitespace. |
| JsText.ReplaceWhitespaceRuns | frontend/src/admin/Books.js:162 | With a whitespace-free replacement, the result has no whitespace. |
| JsText.ReplaceWhitespaceRunsNone | frontend/src/admin/Books.js:162 | A string without whitespace is unchanged. |
| JsText.ReplaceWhitespaceRunsRun | frontend/src/admin/Books.js:162 | A whole whitespace run, however long, becomes one replacement. |
| JsText.DropWhitespaceRun | frontend/src/admin/Books.js:162 | Dropping a whitespace run leaves the rest. |
| Decimal.NatToDecimal | frontend/src/components/AudioBooks.jsx:494 | The decimal rendering is all digits, with no leading zero, and one digit exactly below 10. |
| Decimal.DecimalRoundTrip | frontend/src/components/AudioBooks.jsx:494 | Reading back a rendering gives the number. |
| Decimal.SmallRendering | frontend/src/admin/AdminAudio.jsx:244-245 | Numbers below 100 render in one or two digits. |
| Decimal.DigitRoundTrip | frontend/src/components/AudioBooks.jsx:494 | Digits read back as themselves. |

## Left out

- Real I/O is not modelled.
  - The directory tree, the workbook and the outcome of each copy are inputs. Byte contents of copies are not modelled, and POI parsing is not modelled.
  - A workbook that fails to open is skipped as a whole, as its catch does.
  - `getAbsolutePath` is the working directory joined with the relative path; symbolic links and `..` are not resolved.
- `UUID.randomUUID` and `LocalDateTime.now` are modelled as fresh values. UUIDs come from a counter in the store, and the time is a parameter of each request. Creating the parent directory before a copy (`mkdirs`) is not modelled: it is folded into the copy's outcome.
- `System.out` logging and the stack traces printed in the catch blocks are left out.
- `AdminController.java` is not part of this model. It is the trigger that turns an escaping import exception into a bad request. Here the importers report the failure, and the store is left as the failure leaves it.
- HTTP plumbing is left out: status codes beyond OK, bad request, not found and a failure message; headers; DTO builders beyond the fields the handlers read.
- A `RuntimeException` from `orElseThrow` is modelled as a failure message.
- A database constraint violation is modelled as a failure with the store unchanged. This covers a foreign key on delete and the unique faculty code on update.
- The list, search and paging endpoints are repository queries that run in the database, so they are not modelled. These are `getAll`, `getBySubject` and `search` of the books handler, `findAll`/`getByFaculty` and `getOne` of the other handlers, and `getStatistics`. The repository methods that matter (`findById`, `findByName`, `findByCode`, the `exists` checks, `deleteAll`, `deleteById`) are modelled as operations on the tables.
- The two aggregate queries of the statistics handlers are inputs, given as rows. `StatisticController.EducationTypeFacultyStats` returns the groups keyed by type, because the handler returns a `HashMap`'s values, whose order is unspecified.
- `StatisticController.StatCounts`: the last-row rule is stated for the subject count only. For books it states the zero defaults; which of two book rows with the same faculty wins follows from `AssocLastWins`.
- Ids are drawn from one counter shared by all tables. The database gives each table its own identity sequence, and the seeded faculties keep ids 1, 2 and 4–13. So concrete ids in answers and in report links (`https://library.bxu.uz/book/<id>`) differ from the database's. Only distinctness and freshness of ids are modelled.
- `Catalog.FindSubjectByName`: `findByName` is `LIMIT 1` with no `ORDER BY`, so the database may return any subject of that name. The model takes the earliest row. Names are unique after a books refresh and after `create`, but `SubjectController.Update` can duplicate one (`SubjectController.UpdateSkipsNameGuard`). Which duplicate the importers then reuse is the model's choice.
- `AdminAudio.FormatDuration`: durations are whole seconds. An infinite duration, which JavaScript shows as `Infinity:NaN`, is not modelled.
- A faculty row with a null `educationTypeId` key is not modelled: the type id is an `int`.
- `getHisobot` produces report rows as values. The header row's styling, column widths, the workbook bytes and the internal-server-error path are left out. `rowIdx` always equals the row number, so it is not modelled separately.
- `BooksController.toDTO` and the other DTO mappers copy fields. Only `FacultyController.toDTO`, with its null education type, is modelled.
- The badiiy and audio CRUD handlers (`BadiiyController`, `AudioController`) are not part of this model: they copy fields with no rules. The image and file streaming endpoints are not part of it either.
- `formatFileSize` and `handleProgressClick` use floating point and are left out. `formatTime` delegates to `formatDuration` and is not written separately. Durations are whole seconds, as the player's `Math.floor` makes them.
- JavaScript `toLowerCase` is modelled for the ASCII, Latin-1 and Cyrillic capitals, and for the two characters that lower-case into `[a-z]` (U+0130 and U+212A). Capitals of other scripts (Greek, Armenian, Latin Extended and so on) are kept as they are. The upload prefix drops them anyway. `BooksTable.FieldMatches` and `BooksTable.FilterText` therefore do not capture case-insensitive search for those scripts: the model's search is case-sensitive there, where the browser's is not.
- Loose equality `s.id == form.subjectId` is modelled for numbers and for strings of decimal digits. Other strings never match.
- The network calls (`ApiCall`, `fetch`) are inputs: the upload answers, and whether an upload throws. The server's answer to a save, with its "Saqlashda xatolik" alert, is left out. So are modal, toast and reset effects, `localStorage`, timers and the audio player.
- BooksTable.Catalog.LoadBooks: does not promise that the page stays in range. The source keeps the page when the list shrinks, so the page can fall past the last page until the filters change.
- The display-only filters and counters of the other admin pages and the presentational components are not part of this model.
