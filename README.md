# Motion library asset catalog and thumbnail generator, in Dafny

This project models two parts of a motion library. They never call each other. They agree only through one data directory on disk and one identifier rule.

- **The server's `StorageManager`** (`backend/storage.py`) keeps no index. Every call re-derives its answer from the directory trees `models/` and `trajectories/`:
  - `list_*` walks a tree, builds metadata per file and sorts newest first;
  - `get_*` scans for the first file whose relative path hashes to an ID;
  - `save_*` writes a file below an optional subdirectory;
  - `delete_*` unlinks what `get_*` finds.
- **The offline `ThumbnailGenerator`** (`backend/scripts/generate_thumbnails.py`):
  - checks a model argument;
  - writes `thumbnails/<kind>/<parent>/<id>.webp`;
  - samples 30 evenly spaced pose rows for a trajectory animation;
  - renders every trajectory of a folder and tallies the successes;
  - `main` dispatches on whether the trajectory argument is a file or a folder.

The asset ID is the first 16 hex digits of the MD5 digest of a path string relative to a root (`FileIds.FileId`). Both processes compute it.

## How the model is built

- A directory tree is a value: `FileTree.Tree`, a map from paths to entries plus a set of directories. `mkdir -p`, `write_bytes`, `unlink` and an image `save` are functions on it, each with its failure modes.
- One `Disk.DataDir` object holds the three trees. `Storage.StorageManager` and `Thumbnails.ThumbnailGenerator` both hold it, and their methods reassign its fields.
- The order in which `os.walk`, `iterdir` and `glob` report entries is a parameter `walk`. It lists every entry exactly once.
- A path argument is parsed the way `pathlib` parses it (`Paths.PathParts`).
- `np.load` gives an array shape, a bundle of named arrays, or an error (`TrajectoryFormat.Payload`).
- Loading a model and rendering pixels form one step that succeeds or raises, passed to each render as a boolean.

### Behaviour of the code that the model keeps

- **A category can be several levels deep.** `os.walk` recurses, so a category can be `a/b`. An empty category filters nothing, and saving with an empty category writes at the root (`CatalogProperties.CategoryFilter`, `Catalog.SaveDir`).
- **`get_model` does not test `is_file()`, but `list_models` does.** So a directory named `x.xml` inside a model directory is never listed, yet `get_model` returns it, and `delete_model` then fails on it (`CatalogProperties.ModelLookupReturnsDirectory`, `Storage.StorageManager.DeleteModel`).
- **`get_model` never finds a model saved two levels deep.** That happens when a model is saved under a model name such as `a/b` (`CatalogProperties.DeepModelIsNeverFound`).
- **`render_model` hashes its argument exactly as typed, while `render_trajectory` hashes the normalised path.** So `./m/m.xml` gets a thumbnail under the hash of a different string than the server's ID for `m/m.xml`. The same spelling of a trajectory still gets the listed ID (`ThumbnailProperties.ModelIdFollowsSpelling`, `ThumbnailProperties.TrajectoryIdIgnoresSpelling`).
- **The server reads a trajectory by its name's suffix; the generator reads it by its content.** A bundle stored under a `.npy` name is listed without a frame count, yet it animates (`ThumbnailProperties.MislabelledBundleAnimates`).
- **A model file named exactly `.xml` is listed but refused.** Inside a model directory, `list_models` lists such a file. `render_model` refuses it, because its `suffix` is empty (`ThumbnailProperties.ListedModelThumbnail`).

## Model

| member | source | states |
|---|---|---|
| FileIds.FileId | backend/storage.py:22-24 | the ID depends on the path string alone, so the generator's `get_file_id` (the same MD5 prefix) and the server agree on equal strings; it is always 16 characters, each a lowercase hex digit |
| Paths.PathPartsOfJoin | backend/storage.py:84 | the string form of a stored relative path parses back to that path: what the server hashes is already normalised |
| Paths.PathPartsOfDotSlash | backend/scripts/generate_thumbnails.py:123 | a leading "./" does not change which entry a path argument names |
| Paths.SuffixOfExtension | backend/scripts/generate_thumbnails.py:129 | `suffix` of a name ending in ".xml" is ".xml" exactly when the name is longer than the extension, and "" otherwise |
| TrajectoryFormat.ParseTrajectory | backend/storage.py:26-60 | a frame rate comes only from a ".npz" bundle; a frame count exists exactly when the suffix matches the content, the pose array has a first axis and any rate field converts to a float; the frame and joint counts are the pose array's first two axes |
| TrajectoryFormat.NpyStats | backend/storage.py:46-55 | for ".npy": rank ≥ 2 gives (shape[0], None, shape[1]), rank 1 gives (len, None, None), the rate is never set, and anything else gives three Nones |
| TrajectoryFormat.NpzStats | backend/storage.py:29-44 | for ".npz": the counts come from `qpos` and are both None without it; the rate is `frame_rate`, else `framerate`, else None; a 0-d `qpos` or a rate that will not convert gives three Nones |
| TrajectoryFormat.OtherStats | backend/storage.py:57-60 | any other suffix, or content that cannot be loaded, gives three Nones and nothing is raised |
| Ordering.SortNewestFirstSpec | backend/storage.py:94 | the sorted list is a permutation of the collected one, ordered by date, newest first, and entries with equal dates keep their collected order |
| Ordering.SortKeepsMembers | backend/storage.py:181 | sorting neither adds nor drops an entry |
| FileTree.MakeDirs | backend/storage.py:112 | `mkdir(parents=True, exist_ok=True)` fails exactly when the path or an ancestor is a file; otherwise the path and every ancestor are directories, the files are unchanged, only those directories are added, and a real tree stays real |
| FileTree.WriteFile | backend/storage.py:119 | a write succeeds exactly when the target is not a directory and its parent is one; it then creates or replaces that file and nothing else |
| FileTree.RemoveFile | backend/storage.py:140 | `unlink` removes that one file and changes nothing else |
| FileTree.Put | backend/storage.py:110-119 | when the target lies directly in the created directory, the save succeeds exactly when no file stands on the directory path and the target is not a directory; a success leaves the content at the target and every other file unchanged; a failure leaves every file unchanged and keeps the directories already made |
| FileTree.Emit | backend/scripts/generate_thumbnails.py:141-162 | a thumbnail is written exactly when there is an image and no file or directory is in the way; only the target file changes, and only the target's ancestors become new directories |
| Catalog.FirstTrajectory | backend/storage.py:96-105 | a path the lookup returns is a ".npy"/".npz" file whose relative path hashes to the ID |
| Catalog.FirstModel | backend/storage.py:183-195 | a path the lookup returns is a scanned candidate whose relative path hashes to the ID |
| Catalog.ListedModel | backend/storage.py:150-179 | a root-level model has no model name and its own name as relative path; a model in a directory carries that directory's name and the path "dir/name" |
| CatalogProperties.CollectedTrajectoriesAreListed | backend/storage.py:67-92 | every entry collected comes from a walked file that the suffix and category rules select |
| CatalogProperties.ListedTrajectoriesAreCollected | backend/storage.py:67-92 | every walked file the rules select gets an entry |
| CatalogProperties.ListedTrajectoriesAreExactly | backend/storage.py:67-92 | over a full walk, the entries are exactly those of the selected files |
| CatalogProperties.TrajectoryListing | backend/storage.py:62-94 | list_trajectories returns exactly the selected files' metadata, newest first |
| CatalogProperties.TrajectoryFileIsListed | backend/storage.py:75-92 | without a filter, every ".npy"/".npz" file anywhere below the root is listed |
| CatalogProperties.CategoryFilter | backend/storage.py:68-73 | a non-empty filter keeps only files whose directory equals it exactly, never a root file; None and "" keep everything |
| CatalogProperties.CollectedModelsAreListed | backend/storage.py:150-179 | every entry collected comes from a walked root ".xml" file or a "*.xml" file inside a first-level directory |
| CatalogProperties.ListedModelsAreCollected | backend/storage.py:150-179 | every such walked file gets an entry |
| CatalogProperties.ListedModelsAreExactly | backend/storage.py:150-179 | over a full scan, the entries are exactly those files, and nothing deeper |
| CatalogProperties.ModelListing | backend/storage.py:144-181 | list_models returns exactly those files' metadata, newest first |
| CatalogProperties.FirstTrajectorySpec | backend/storage.py:96-105 | get_trajectory returns the first walked trajectory file carrying the ID, and None exactly when no walked trajectory file carries it |
| CatalogProperties.FirstModelSpec | backend/storage.py:183-195 | get_model returns the first scanned candidate carrying the ID, and None exactly when no candidate carries it |
| CatalogProperties.TrajectoryFoundById | backend/storage.py:96-105 | every trajectory file is found by its own ID; with distinct IDs, the file found is that file |
| CatalogProperties.ModelFoundById | backend/storage.py:183-195 | every model candidate is found by its own ID; with distinct IDs, the candidate found is that candidate |
| CatalogProperties.SaveSucceedsWhenUnobstructed | backend/storage.py:110-119 | a save of a plain file name succeeds exactly when no file stands on the directory path and no directory at the target |
| CatalogProperties.SaveOverwritesFile | backend/storage.py:110-119 | a save over a file already stored at the target succeeds, silently replaces that file's content and creates no directory |
| CatalogProperties.SaveTargetOfNames | backend/storage.py:110-116 | with plain names, a save writes "sub/filename", or "filename" at the root when the subdirectory is None or "" |
| CatalogProperties.SavedTrajectoryIsFound | backend/storage.py:107-134 | after a save, get_trajectory with the returned ID finds a file with that ID; with distinct IDs, the file found is the saved one |
| CatalogProperties.SavedTrajectoryIsListed | backend/storage.py:107-134 | after a save, the listing holds the saved file's metadata: the returned ID, size, date and parsed counts |
| CatalogProperties.SavedTrajectoryEchoes | backend/storage.py:125-128 | the name and category a save echoes equal those the listing derives, when the name is plain and the category is in normal form |
| CatalogProperties.SavedModelIsFound | backend/storage.py:197-219 | after saving "x.xml" at the root or in a model directory, get_model with the returned ID finds a file with that ID; with distinct IDs, the file found is the saved one |
| CatalogProperties.DeepModelIsNeverFound | backend/storage.py:183-195 | get_model never returns a path two or more directories deep |
| CatalogProperties.DeletedTrajectoryIsGone | backend/storage.py:136-142 | with distinct IDs, after a delete a lookup of the same ID finds nothing |
| CatalogProperties.DeletedModelIsGone | backend/storage.py:221-227 | with distinct IDs, after a model file is deleted a lookup of the same ID finds nothing |
| CatalogProperties.ModelLookupReturnsDirectory | backend/storage.py:186-191 | a directory named "*.xml" inside a model directory is never listed, yet get_model returns it for its ID |
| Storage.StorageManager.constructor | backend/storage.py:14-20 | the manager works on the given data directory; the roots exist by construction |
| Storage.StorageManager.ListTrajectories | backend/storage.py:62-94 | the result is the walk's selected files sorted newest first; it holds exactly the metadata of the files the suffix and category rules select; dates do not increase |
| Storage.StorageManager.GetTrajectory | backend/storage.py:96-105 | it returns the first walked trajectory file with the ID; a returned path is a trajectory file with that ID; None exactly when no trajectory file has the ID |
| Storage.StorageManager.SaveTrajectory | backend/storage.py:107-134 | only the trajectories tree changes, by directory creation and a write of the target; the result is Ok exactly when the write succeeded, which for a plain file name is exactly when nothing stands in the way of the target; it then echoes the given name and category with the stored file's ID and metadata; the trees stay real |
| Storage.StorageManager.DeleteTrajectory | backend/storage.py:136-142 | it returns True exactly when some trajectory file has the ID; then only the file found disappears, otherwise nothing changes |
| Storage.StorageManager.ListModels | backend/storage.py:144-181 | the result is the scan's model files sorted newest first; it holds exactly the metadata of root ".xml" files and "*.xml" files in first-level directories; dates do not increase |
| Storage.StorageManager.GetModel | backend/storage.py:183-195 | it returns the first scanned candidate with the ID (possibly a directory); None exactly when no candidate has the ID |
| Storage.StorageManager.SaveModel | backend/storage.py:197-219 | only the models tree changes, by directory creation and a write of the target; Ok exactly when the write succeeded, which for a plain file name is exactly when nothing stands in the way of the target, echoing name, model name, ID and relative path |
| Storage.StorageManager.DeleteModel | backend/storage.py:221-227 | when nothing is found: Ok(false) and no change; when a file is found: Ok(true) and only that file disappears; when a directory is found: an error and no change |
| FrameSampling.FrameIndices | backend/scripts/generate_thumbnails.py:240 | linspace yields exactly TRAJECTORY_FRAMES (30) indices |
| FrameSampling.FrameRows | backend/scripts/generate_thumbnails.py:257-259 | the frame loop reads rows exactly when every index is within range, and then reads one existing row per index |
| FrameSampling.FrameIndicesInBounds | backend/scripts/generate_thumbnails.py:240 | for N ≥ 1 the picks start at row 0, end at row N-1 and stay within [0, N-1] |
| FrameSampling.FrameIndicesNonDecreasing | backend/scripts/generate_thumbnails.py:240 | the picks never go backwards |
| FrameSampling.FrameIndicesEvenlySpaced | backend/scripts/generate_thumbnails.py:240 | consecutive picks are (N-1)/29 rounded down, or one more, rows apart |
| FrameSampling.FrameIndicesDistinctWhenLong | backend/scripts/generate_thumbnails.py:240 | with 30 rows or more, no row is picked twice |
| FrameSampling.FrameIndicesRepeatWhenShort | backend/scripts/generate_thumbnails.py:240 | with fewer than 30 rows, some row is shown in two consecutive frames |
| FrameSampling.FrameRowsOfPicks | backend/scripts/generate_thumbnails.py:240-259 | for N ≥ 1 the frame loop reads exactly the picked rows |
| FrameSampling.FrameRowsOfEmpty | backend/scripts/generate_thumbnails.py:237-259 | an empty pose array fails at the first frame |
| Thumbnails.ModelThumbnail | backend/scripts/generate_thumbnails.py:135-144 | a model thumbnail lies in `models/<parent of the argument>` and is named by the hash of the argument exactly as typed |
| Thumbnails.TrajectoryThumbnail | backend/scripts/generate_thumbnails.py:208-217 | a trajectory thumbnail lies in `trajectories/<parent of the path>` and is named by the hash of the relative path |
| Thumbnails.ModelRender | backend/scripts/generate_thumbnails.py:99-169 | a model that does not exist or is not ".xml" gives False and changes nothing; True exactly when the model is a file, rendering succeeds and the output path is free; then exactly that file is added, otherwise no file changes; the only new directories are the thumbnail's ancestors |
| Thumbnails.Animate | backend/scripts/generate_thumbnails.py:229-259 | an animation exists exactly when the file loads, has a pose array (the `qpos` field of a bundle) with a first axis and at least one row; it then shows the 30 sampled rows, 100 ms each |
| Thumbnails.TrajectoryRender | backend/scripts/generate_thumbnails.py:171-290 | a missing or non-".xml" model gives False and changes nothing; True exactly when the model is a file, the render succeeds, the animation exists and the output path is free; then exactly that file is added; the only new directories are the thumbnail's ancestors |
| Thumbnails.Glob | backend/scripts/generate_thumbnails.py:328 | the result holds exactly the walked entries directly inside the folder whose name ends in the extension |
| Thumbnails.Count | backend/scripts/generate_thumbnails.py:337-342 | 0 ≤ success ≤ total; success == total exactly when every render returned True; 0 exactly when none did |
| Thumbnails.Batch | backend/scripts/generate_thumbnails.py:340-343 | one result per file; directories only accumulate |
| Thumbnails.FolderRender | backend/scripts/generate_thumbnails.py:292-345 | for a walk that lists the tree, success ≤ total; total is the number of distinct entries directly inside an existing folder whose name ends in ".npy" or ".npz" (files and directories, as the globs yield them), and 0 otherwise; with total 0 nothing is written |
| Thumbnails.Startup | backend/scripts/generate_thumbnails.py:52-54 | the two mkdirs succeed exactly when neither `models` nor `trajectories` is a file; files are unchanged and a real tree stays real |
| Thumbnails.PoseRows | backend/scripts/generate_thumbnails.py:256-259 | the loop reads exactly the rows FrameRows describes, and fails exactly where an index is out of range |
| Thumbnails.LoadAnimation | backend/scripts/generate_thumbnails.py:229-259 | the loading steps yield exactly the animation Animate describes |
| Thumbnails.ThumbnailGenerator.constructor | backend/scripts/generate_thumbnails.py:46-54 | creating the generator makes the two thumbnail directories and touches no other tree |
| Thumbnails.ThumbnailGenerator.RenderModel | backend/scripts/generate_thumbnails.py:99-169 | the new thumbnail tree and the flag are those of ModelRender; models and trajectories are unchanged |
| Thumbnails.ThumbnailGenerator.RenderTrajectory | backend/scripts/generate_thumbnails.py:171-290 | the new thumbnail tree and the flag are those of TrajectoryRender; models and trajectories are unchanged |
| Thumbnails.ThumbnailGenerator.RenderBatch | backend/scripts/generate_thumbnails.py:337-345 | each file is rendered in turn; the thumbnails and success count are those of Batch and Count |
| Thumbnails.ThumbnailGenerator.RenderTrajectoriesInFolder | backend/scripts/generate_thumbnails.py:292-345 | for a walk that lists the tree, the new thumbnails and (success, total) are those of FolderRender, so total counts the folder's ".npy" and ".npz" entries |
| Thumbnails.FolderTrajectoriesAreFolderEntries | backend/scripts/generate_thumbnails.py:328 | the files the two globs return are exactly the folder's direct ".npy" and ".npz" entries, none repeated, so their number is the number of those entries |
| Thumbnails.Run | backend/scripts/generate_thumbnails.py:461-525 | with no command nothing changes; when the startup directories cannot be made it stops before any render, keeping what mkdir made; a model command is a model render; a trajectory argument naming a file renders that file, one naming a directory renders the folder, anything else renders nothing |
| ThumbnailProperties.ModelRenderKeepsValid | backend/scripts/generate_thumbnails.py:141-162 | a model render keeps the thumbnail tree a real tree |
| ThumbnailProperties.TrajectoryRenderKeepsValid | backend/scripts/generate_thumbnails.py:213-283 | a trajectory render keeps the thumbnail tree a real tree |
| ThumbnailProperties.BatchKeepsValid | backend/scripts/generate_thumbnails.py:340-343 | a batch of renders keeps the thumbnail tree a real tree |
| ThumbnailProperties.FolderRenderKeepsValid | backend/scripts/generate_thumbnails.py:292-345 | rendering a folder keeps the thumbnail tree a real tree |
| ThumbnailProperties.BatchRendersEach | backend/scripts/generate_thumbnails.py:340-343 | the k-th flag is the outcome of rendering the k-th file on the thumbnails the earlier renders left: every file is attempted, after a failure too |
| ThumbnailProperties.BatchSucceedsIffEachRenderDoes | backend/scripts/generate_thumbnails.py:337-342 | all renders of a batch count as successes exactly when each render, taken in turn, returns True |
| ThumbnailProperties.FolderSucceedsIffEachRenderDoes | backend/scripts/generate_thumbnails.py:337-345 | success_count == total_count exactly when every render of the folder, taken in turn, returned True |
| ThumbnailProperties.RejectedModelBatch | backend/scripts/generate_thumbnails.py:198-204 | with a missing or non-".xml" model, every render of a batch returns False and nothing is written |
| ThumbnailProperties.RejectedModelFolder | backend/scripts/generate_thumbnails.py:292-345 | with a missing or non-".xml" model, a folder render writes nothing and reports 0 successes |
| ThumbnailProperties.ListedModelThumbnail | backend/scripts/generate_thumbnails.py:123-144 | a listed model, passed by its listed relative path, is accepted exactly when its name is longer than ".xml", and its thumbnail carries the ID the server lists |
| ThumbnailProperties.ModelIdFollowsSpelling | backend/scripts/generate_thumbnails.py:135-144 | the same model spelled "./" + path is accepted and lands in the same directory, but under the hash of a different string |
| ThumbnailProperties.ListedTrajectoryThumbnail | backend/scripts/generate_thumbnails.py:208-217 | a listed trajectory, passed by its relative path, is the file rendered, and its thumbnail carries the ID the server lists |
| ThumbnailProperties.TrajectoryIdIgnoresSpelling | backend/scripts/generate_thumbnails.py:208-211 | the same trajectory spelled "./" + path still gets the thumbnail named by its listed ID |
| ThumbnailProperties.ListedFrameCountIsAnimated | backend/scripts/generate_thumbnails.py:229-240 | when the server lists a frame count N, the animation exists exactly when N ≥ 1 and samples rows out of those N |
| ThumbnailProperties.MislabelledBundleAnimates | backend/scripts/generate_thumbnails.py:229-235 | a bundle stored under a ".npy" name is listed without a frame count, yet it animates |
| ThumbnailProperties.AnimationSpansTrajectory | backend/scripts/generate_thumbnails.py:237-259 | an animation starts at the first pose row, ends at the last, never goes back and reads only existing rows; with at least 30 rows no row repeats, with fewer some row is held for two frames |

## Left out

- FileIds.FileId: MD5 (RFC 1321) is written out in full, but the only facts proved about its result are its length and its alphabet. That two paths get distinct IDs is not something MD5 promises. It is an explicit hypothesis (`Catalog.TrajectoryIdsDistinct`, `Catalog.ModelIdsDistinct`) of the lemmas that need it.
- FileIds.FileId: file names whose bytes are not valid UTF-8 are not modelled, because a model string holds Unicode scalar values only. Python decodes such a name with surrogate escapes, and `encode()` then raises `UnicodeEncodeError`. `list_trajectories`, `list_models`, `get_trajectory` and `get_model` do not catch it. So a listing of a tree holding such a name raises, and so does a lookup whose scan reaches it before a match. The model has no such error path.
- Storage.StorageManager.SaveTrajectory: requires a file name and category that are relative and contain no ".." segment. The operating system resolves an absolute name or ".." outside the directory tree the model holds.
- Storage.StorageManager.SaveModel: the same restriction on the file name and model name, for the same reason.
- ThumbnailProperties.ModelRenderKeepsValid: requires a relative model argument without "..", for the same reason.
- Thumbnails.ModelRender: a model argument is faithful only when it is relative and has no ".." segment. The model reads "/m.xml" as `models/m.xml`, where Python looks up the host's `/m.xml` and would write the thumbnail outside `thumbnails/models`. The model refuses "a/../m.xml", where the operating system resolves it to `m.xml`.
- Thumbnails.TrajectoryRender: the same holds for its model argument.
- Thumbnails.FolderRender: the same holds for its model argument.
- Thumbnails.Run: the same holds for both arguments. In addition, a trajectory argument with a ".." segment is reported as not found, where Python resolves it and renders the file or folder it names.
- Thumbnails.ThumbnailGenerator.RenderModel: the contract does not restate that the thumbnail tree stays well formed. That is proved once, about the specification function, in `ThumbnailProperties.ModelRenderKeepsValid`.
- Thumbnails.ThumbnailGenerator.RenderTrajectory: the same, with `ThumbnailProperties.TrajectoryRenderKeepsValid`.
- Thumbnails.ThumbnailGenerator.RenderBatch: the same, with `ThumbnailProperties.BatchKeepsValid`.
- Thumbnails.ThumbnailGenerator.RenderTrajectoriesInFolder: the same, with `ThumbnailProperties.FolderRenderKeepsValid`.
- Thumbnails.Animate: MuJoCo model loading, `mj_forward`, the renderer, camera placement and WebP encoding are one boolean per render. So is the error raised when a pose row's width differs from the model's `nq`.
- Thumbnails.Run: requires the trajectories tree to be well formed, which every tree the model builds is. Argparse and the camera options become a `Command` value. The `data_dir.exists()` check is not modelled, because the model's data directory always exists. The printed messages are not modelled.
- Folder order: the order of `os.walk`, `iterdir` and `glob` is a parameter (`walk`). Every operation that scans a tree requires that `walk` lists every entry of it exactly once (`FileTree.Enumerates`). It is not a fixed platform order.
- Frame sampling: `np.linspace` with an integer dtype is computed in exact arithmetic. It rounds toward minus infinity, as numpy ≥ 1.20 does. Floating-point rounding for very long trajectories is not modelled.
- Dates: `st_mtime` is an integer number of seconds, and the conversion through `datetime` is not modelled.
- `PurePath.suffix` follows Python up to 3.13. Python 3.14 also accepts a name ending in a dot.
- Symbolic links, permissions and concurrent writers are not modelled. Each process is one sequential actor on a tree.
- Frame rates are compared only as present or absent, with their value carried along. No float arithmetic is done on them.
- The server's constructor creates the two roots. In the model they always exist, so its `mkdir` calls have nothing to do.
- `backend/main.py` (HTTP routing, upload checks, thumbnail lookup), `backend/config.py`, `backend/models.py` beyond the two metadata records, and `extract_mujoco_rendering_params.py` are not part of this model.
