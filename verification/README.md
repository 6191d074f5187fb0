# MSH2FBX in Dafny

This project models the core of MSH2FBX. MSH2FBX converts Star Wars
Battlefront II `.msh` assets into FBX scenes. The model covers three parts:

- **The session converter** (`ConverterLib/Converter.cpp`):
  - the session: `Start`, `AddMSH`, `SaveFBX`, `Close` and `ClearFBXScene`;
  - the scene conversion of one asset: the registration, parentship, base-pose, weight and animation passes;
  - the material and mesh builders;
  - the hierarchy check that runs before every export.
- **The legacy converter** (`MSH2FBX/Converter.cpp`): `SaveAsFBX` converts and exports one asset in a single call.
- **The command-line tool** (`MSH2FBX/MSH2FBX.cpp`):
  - the progress label;
  - the directory test;
  - the ignore mask built from filter options;
  - argument validation;
  - `ProcessMSH`;
  - the three conversion phases and the final save.

The FBX scene is a sequence of nodes indexed by node id, with the root at id 0. Each node records:

- its name and parent back-link;
- its ordered child list;
- its attribute: mesh, skeleton or none;
- its material slots and transform.

The scene also holds:

- a table of skin clusters, since skins refer to clusters shared between meshes;
- the animation stacks.

The converter's lookup tables are maps:

- checksum to node;
- (asset, model) to node;
- bone to cluster.

A log message becomes a `Diag` value: an event for the kind of message,
with the names and numbers it mentions, and a severity. The message texts
themselves are not kept, and some messages have no event of their own; the
lines starting `Diagnostics.Event` and `Legacy.SaveAsFbx` under
"## Left out" list them. The CRC of a name and the quaternion-to-Euler
conversion are function parameters: they are computed by code outside this
model.

Modules follow the source:

- `Msh`, `Scenes`, `Purposes` and `Diagnostics` hold the data model.
- `Geometry` holds the material and mesh builders.
- `Registration`, `Placement`, `Pose`, `Weights`, `Skinning` and `Animation` hold the passes of `MSHToFBXScene`.
- `Builder` composes the passes.
- `Hierarchy` holds `CheckHierarchy`.
- `Session` holds the converter's public operations.
- `Legacy` holds the legacy converter.
- `Paths` and `Cli` hold the tool.

Where the code differs from its help text or from what its names suggest, the model follows the code:

- **`Close` keeps the lookup tables.** It does not clear the checksum and model tables. A later `Start` clears them (`ConverterLib/Converter.cpp:326-359`).
- **Directory destinations are refused.** The help text offers a directory as the destination. But `main` also demands the ".fbx" extension of any destination, so an existing directory is refused as well (`MSH2FBX/MSH2FBX.cpp:271-284`; see `Cli.DirectoryDestinationRefused`).
- **The legacy message names the parent.** When a model is missing from its table, the legacy converter's message names the model's parent, not the model (`MSH2FBX/Converter.cpp:116,122`).
- **A failed add keeps the override name.** When `AddMSH` fails, `ProcessMSH` does not reset the animation override name (`MSH2FBX/MSH2FBX.cpp:143-157`; see `Cli.AddInput`).

## Model

| member | source | states |
|---|---|---|
| Purposes.FilterPurpose | MSH2FBX/MSH2FBX.cpp:197-223 | a filter option names a purpose exactly when it is one of the table's 17 names; "Mesh", "Point" and "Skeleton" alone name their whole family, a bit's enumerator name alone names that single bit, and only "Miscellaneous" names the empty purpose |
| Scenes.CreateUnderRoot | ConverterLib/Converter.cpp:390-391 | a new node with the model's name is appended as the root's last child; every other node is unchanged |
| Scenes.Detach | ConverterLib/Converter.cpp:451-452 | removing a node from its parent changes only the child lists of the node and its old parent and the node's back-link; no node's content changes |
| Scenes.FindByName | ConverterLib/Converter.cpp:446 | the parent lookup finds the least node id below the root with that name, and finds nothing exactly when no node below the root has that name |
| Geometry.SlotIndex | ConverterLib/Converter.cpp:814 | a node's material lookup returns the first slot with the name, or -1 exactly when no slot has it |
| Geometry.AddMaterial | ConverterLib/Converter.cpp:814-833 | an existing slot of the same name is reused without a new slot; otherwise exactly one slot is appended, and either way the index returned is the name's slot |
| Geometry.AddMaterialIdempotent | ConverterLib/Converter.cpp:814-833 | resolving the same material twice gives the same index and slots as resolving it once |
| Geometry.PolygonMaterial | ConverterLib/Converter.cpp:888-906 | a polygon's material index is the slot of the segment's material when the index is in range and materials are not filtered, else -1; an out-of-range index logs one warning |
| Geometry.PolygonMaterialIdempotent | ConverterLib/Converter.cpp:888-906 | repeating a segment's material lookup changes neither its index nor the slots |
| Geometry.EmitPolygons | ConverterLib/Converter.cpp:884-916 | every polygon of a segment carries the segment's material index and its vertex indices shifted by the segment's vertex offset; there is one warning per polygon when the index is out of range |
| Geometry.CopyVertices | ConverterLib/Converter.cpp:865-881 | a consistent segment contributes all its vertices and normals, plus its UVs up to the vertex count |
| Geometry.AssembleSegments | ConverterLib/Converter.cpp:860-927 | the segment loop fails exactly when some segment has different vertex and normal counts; slots added before the failure stay |
| Geometry.AssembleSegmentsFacts | ConverterLib/Converter.cpp:860-927 | when no segment fails, each segment's vertices, normals, UVs and polygons sit at its offsets and every polygon's material has a slot |
| Geometry.ModelToMesh | ConverterLib/Converter.cpp:838-960 | a mesh results exactly when every segment is consistent; it is named after the model and has no skin |
| Geometry.ModelToMeshMatches | ConverterLib/Converter.cpp:929-958 | a built mesh holds every segment's geometry at its offsets, with slots for the materials its polygons use |
| Registration.SkeletonKind | ConverterLib/Converter.cpp:962-998 | a bone type exists exactly for a single skeleton bit; the two root bits make a root bone |
| Registration.ConvertModel | ConverterLib/Converter.cpp:393-421 | the mesh bit takes precedence; a mesh model converts exactly when meshes are left empty or all its segments are consistent; a bone converts exactly when it has a bone type; anything else is a point with an empty mesh; a failed conversion logs the failure message |
| Registration.RegisterValid | ConverterLib/Converter.cpp:374-426 | the registration loop keeps its invariant: the CRC table only grows and names scene nodes, and each recorded model, in order, gets a new node under the root named after it |
| Registration.RegisterFilters | ConverterLib/Converter.cpp:384-387 | no ignored model, and no skeleton model whose checksum already has a node, is recorded |
| Registration.RegisterComplete | ConverterLib/Converter.cpp:374-426 | every model that is neither ignored nor an already-known bone, and that converts, is recorded |
| Placement.PlaceAllFacts | ConverterLib/Converter.cpp:430-467 | after the parentship loop each recorded model's node carries the model's transform and hangs under the root or under a node named as its parent; nothing else changes |
| Pose.LastPose | ConverterLib/Converter.cpp:476-517 | the entry that decides a node's pose is a usable entry aimed at that node, and one exists exactly when some usable entry targets the node |
| Pose.PoseAllEffect | ConverterLib/Converter.cpp:476-517 | after the base-pose loop, a targeted node has the last usable entry's translation and rotation and keeps its scale; other nodes are unchanged; one warning per unusable entry, in order |
| Pose.ApplyBasepose | ConverterLib/Converter.cpp:470-523 | no base pose changes nothing; a base pose without frames only warns; otherwise the loop's effect as above |
| Weights.Resolve | ConverterLib/Converter.cpp:640-702 | a zero weight is skipped; a weight is accepted exactly when its envelope index, its model index and its bone's node and parent all resolve, and is then linked to the bone node's parent |
| Weights.Step | ConverterLib/Converter.cpp:640-702 | one weight adds to the log exactly the warning for a rejected weight |
| Weights.AddCluster | ConverterLib/Converter.cpp:676-692 | a bone without a cluster gets a new cluster linked to its node's parent, holding the weight's entry; every existing cluster is untouched |
| Weights.FoldAccumulates | ConverterLib/Converter.cpp:631-714 | over the weight loop, bones keep their clusters; a bone ends with a cluster exactly when it had one or received an entry; each cluster's entries grow by exactly its bone's accepted weights, in loop order |
| Weights.ContributionSound | ConverterLib/Converter.cpp:640-692 | every entry a cluster receives comes from an accepted weight for its bone, with that weight's value |
| Weights.ContributionComplete | ConverterLib/Converter.cpp:640-692 | every accepted weight for a bone appears among its cluster's entries |
| Weights.ZeroWeightsChangeNothing | ConverterLib/Converter.cpp:641-644 | weights that are all zero leave the clusters and the log unchanged |
| Weights.SegmentsToSkin | ConverterLib/Converter.cpp:544-552 | the weight pass over a mesh is the weight loop over its segments, with control points shifted by the running vertex offset |
| Weights.EntriesInMesh | ConverterLib/Converter.cpp:544-552 | every entry added names a control point of the model's mesh when the weights fit their segments |
| Weights.MakeSkin | ConverterLib/Converter.cpp:554-559 | the skin is named after the model plus "_Skin" and lists exactly the clusters of the bone-to-cluster table |
| Weights.SkinDistinct | ConverterLib/Converter.cpp:554-559 | a skin never lists a cluster twice |
| Skinning.SkinOneMesh | ConverterLib/Converter.cpp:541-563 | for a mesh model the weights accumulate into the file's clusters, and the model's node gains one skin named after it holding exactly the table's clusters |
| Skinning.SkinAllFacts | ConverterLib/Converter.cpp:529-564 | after the weight pass each mesh model's node has gained one skin whose clusters the table names; a later mesh's skin holds every cluster of an earlier one; other nodes are unchanged |
| Animation.SetKeysLookup | ConverterLib/Converter.cpp:761-770 | after keys are added, a frame holds the value of its last key, or its old value if no key is at it |
| Animation.SetKeysAppend | ConverterLib/Converter.cpp:742-797 | adding two batches of keys is adding their concatenation |
| Animation.ApplyBone | ConverterLib/Converter.cpp:754-796 | one entry creates all six curves of its node, even without keys, and changes no other node's curves |
| Animation.BoneLoopCurveSet | ConverterLib/Converter.cpp:742-797 | a node has curves exactly when some entry's checksum resolves to it |
| Animation.BoneLoopCurves | ConverterLib/Converter.cpp:742-797 | each curve holds the keys of all entries resolving to its node, in order, with the last key at a frame winning |
| Animation.BoneLoop | ConverterLib/Converter.cpp:745-751 | the log is one warning per entry whose checksum has no node, in the order of the entries |
| Animation.ConvertAnimations | ConverterLib/Converter.cpp:717-798 | no cycle gives no stack and one warning; otherwise one stack named by the override or the first cycle, with layer name+"_Layer", spanning the first cycle's frames, with curves exactly for animated nodes, and one warning per entry with an unknown checksum, in entry order |
| Animation.StackCurveAt | ConverterLib/Converter.cpp:742-797 | a converted curve has a key at a frame exactly when some entry of its node sets one there, holding the last such value |
| Builder.ModelsPassFilters | ConverterLib/Converter.cpp:374-426 | the models pass converts no ignored model and no already-known bone, and misses no other model that converts |
| Builder.ModelsPassEntries | ConverterLib/Converter.cpp:374-523 | each recorded model ends on a node named after it, with its checksum in the table, hanging under the root or its named parent, with its own transform posed where the base pose says |
| Builder.ModelsPassKeeps | ConverterLib/Converter.cpp:361-565 | the models pass leaves the nodes already in the scene with their names, attributes, materials and parents |
| Builder.ModelsPassSkins | ConverterLib/Converter.cpp:529-564 | recorded mesh models gain skins exactly when weights are not filtered |
| Builder.BaseposeNodes | ConverterLib/Converter.cpp:470-523 | the base-pose pass changes node transforms only, as the last usable entry aimed at each node says |
| Builder.AnimationPass | ConverterLib/Converter.cpp:567-571 | the animation pass changes only the stacks: nothing without a cycle, else exactly one appended stack as `ConvertAnimations` describes |
| Builder.ConvertFile | ConverterLib/Converter.cpp:361-572 | models and animations run unless their chunk is filtered; the animation pass sees the CRC table of every file so far |
| Hierarchy.CheckHierarchy | ConverterLib/Converter.cpp:43-112 | without a scene, exactly one error; on a scene of at most 1000 nodes the depth guard never fires; a circle is logged as an error followed by an info note naming the child's parent (see `Hierarchy.RevisitIsCircle`) |
| Hierarchy.Visit | ConverterLib/Converter.cpp:52-109 | the walk only extends its processed list and log, processes each valid node at most once, and on a scene of at most 1000 nodes never logs the depth abort; the circle error and its parent note are stated by `Hierarchy.RevisitIsCircle` |
| Hierarchy.RevisitIsCircle | ConverterLib/Converter.cpp:86-91 | a valid child that is already processed gets a circle error naming it and the listing node, then an info note naming the listing node as its parent; it is not processed again, and the walk goes on with the next sibling |
| Hierarchy.ConsistentTreeIsClean | ConverterLib/Converter.cpp:43-112 | a scene where every listed child is a valid non-root node listed once, by the node its back-link names, passes the check without any diagnostic when it has at most 1000 nodes |
| Hierarchy.TreeVisitClean | ConverterLib/Converter.cpp:52-109 | in such a tree, visiting a node whose children are unprocessed logs nothing, and every node it processes hangs below it |
| Hierarchy.VisitIgnoresBacklinks | ConverterLib/Converter.cpp:93-107 | back-link mismatches are only reported: the nodes processed depend on the child lists alone |
| Hierarchy.CircleIsReported | ConverterLib/Converter.cpp:86-91 | on the scene root → 1 → 2 where node 2 lists node 1 again, the check logs exactly one circle error, for node 1 under node 2, followed by the info note naming node 2 as node 1's parent |
| Session.Fresh | ConverterLib/Converter.cpp:8-13 | a new converter has no scene, manager or asset, is not running, and meets the session invariant |
| Session.Start | ConverterLib/Converter.cpp:155-204 | refuses, in the code's order, a running session, a leftover scene, manager or asset; otherwise an empty scene and empty tables, the leftover-path error, and the base pose reloaded when its file exists |
| Session.AddGuardsAsWritten | ConverterLib/Converter.cpp:206-228 | the guards of `AddMSH` as written let the conversion go ahead exactly when no asset is in progress and the file exists |
| Session.ClosedSessionPassesAddGuards | ConverterLib/Converter.cpp:206-228 | on a closed session those guards let an existing file through although there is no scene |
| Session.AddMsh | ConverterLib/Converter.cpp:206-248 | an asset in progress, a missing scene or a missing file is refused with its error; otherwise the asset is converted into the scene |
| Session.SaveFbx | ConverterLib/Converter.cpp:250-310 | refuses without a scene or manager or with an asset in progress; otherwise the log gains the missing-path error, the hierarchy check and the export failure, and nothing else changes |
| Session.CloseAsWritten | ConverterLib/Converter.cpp:326-359 | as written, a running session with a scene frees the base pose asset but keeps the handle |
| Session.DanglingBaseposeAfterRestart | ConverterLib/Converter.cpp:155-204 | after such a close, a restart without the base pose file leaves a running session on the freed asset |
| Session.Close | ConverterLib/Converter.cpp:326-359 | a no-op unless running; without scene or manager it only reports; otherwise scene, manager, asset and path are dropped and the base pose handle is reset, while the tables stay |
| Session.ClearFbxScene | ConverterLib/Converter.cpp:312-324 | refuses when not running; otherwise it always succeeds |
| Session.ClearStartsOver | ConverterLib/Converter.cpp:312-324 | clearing keeps the destination and the log and leaves an empty scene with empty tables; only the base pose may be reloaded |
| Session.OperationsKeepValid | ConverterLib/Converter.cpp:155-359 | every session operation keeps the session invariant |
| Session.CloseIdempotent | ConverterLib/Converter.cpp:326-359 | closing twice is closing once |
| Session.StartOnlyWhenClosed | ConverterLib/Converter.cpp:155-204 | a valid session starts exactly when it is not running, and a second start is refused |
| Session.AddKeepsChecksums | ConverterLib/Converter.cpp:206-248 | adding assets never loses a checksum |
| Paths.LastDot | MSH2FBX/Converter.cpp:19 | the last '.' of a string, absent exactly when it has none |
| Paths.Filename | MSH2FBX/MSH2FBX.cpp:75 | the file name is the longest suffix without a separator, preceded by a separator or nothing |
| Paths.Parent | MSH2FBX/MSH2FBX.cpp:75 | the directory part followed by the file name is the path |
| Paths.FilenameOfJoin | MSH2FBX/MSH2FBX.cpp:75 | a separator-free name joined to a directory part is the file name of the result, and the directory part its parent |
| Paths.ExtensionStart | MSH2FBX/MSH2FBX.cpp:279 | the extension starts at the last dot of the name unless that dot starts the name or the name is "." or ".." |
| Paths.Stem | MSH2FBX/MSH2FBX.cpp:145 | the stem followed by the extension is the file name; the stem is empty exactly when the file name is |
| Paths.ReplaceExtension | MSH2FBX/MSH2FBX.cpp:132-133 | the new path keeps everything before the old extension and ends with the new extension |
| Paths.ReplaceExtensionFacts | MSH2FBX/MSH2FBX.cpp:132-133 | replacing the extension of a file path keeps its directory and stem and gives exactly the new extension |
| Legacy.GetPlainName | MSH2FBX/Converter.cpp:17-27 | a name without a '.' is returned whole; otherwise the result is everything before the last '.' |
| Legacy.PlainNameStripsExtension | MSH2FBX/Converter.cpp:17-27 | appending a dot-free extension and stripping it gives the name back |
| Legacy.ConvertModel | MSH2FBX/Converter.cpp:77-94 | mesh and skeleton bits are both honoured, the bone replacing the mesh; a model converts exactly when each part it asks for converts; a converted bone ends its log with the message naming it as a root, limb or end bone |
| Legacy.BoneLabel | MSH2FBX/Converter.cpp:386-403 | the bone message says "Root" exactly for a root bone type, "Limb" exactly for the limb bit and "End" exactly for the end bit, which is kept apart from "Limb" although both get the limb type |
| Legacy.Find | MSH2FBX/Converter.cpp:107 | the table lookup finds an entry for the model, or -1 exactly when there is none |
| Legacy.Register | MSH2FBX/Converter.cpp:61-97 | the model loop adds one node per model the mask lets through and records converted models in order, on their new nodes |
| Legacy.RegisterFacts | MSH2FBX/Converter.cpp:61-97 | every model the mask lets through has its own new node, named after it, under the root, with its conversion's attribute and materials and no transform; the table maps exactly the converted ones to their nodes; the nodes found before are unchanged |
| Legacy.ParentshipPlaces | MSH2FBX/Converter.cpp:101-144 | the parentship loop places each mapped model as the session converter's placement does, and leaves unmapped models alone |
| Legacy.OrderedDistinct | MSH2FBX/Converter.cpp:96 | the model-to-node table maps no two models to the same node |
| Legacy.SaveAsFbx | MSH2FBX/Converter.cpp:29-175 | a leftover scene or manager, or a missing asset, is refused with nothing created; otherwise the scene `Build` converts, named after the plain file name, is built with `Build`'s log plus an export error if the export failed, and both handles are empty again, whatever the export's outcome |
| Legacy.BuiltScene | MSH2FBX/Converter.cpp:58-144 | each model the mask lets through has a node named after it with its conversion's attribute; a converted model's node has its transform and hangs under the root or its parent; a failed model's node stays under the root untransformed |
| Cli.ProgressLabel | MSH2FBX/MSH2FBX.cpp:47-60 | the label is exactly 40 characters: a short text padded with spaces, a long one cut to 37 characters plus "..." |
| Cli.LabelRoundTrip | MSH2FBX/MSH2FBX.cpp:47-60 | a short text not ending in a space is recovered from its label by trimming |
| Cli.LongLabelsAgree | MSH2FBX/MSH2FBX.cpp:47-60 | two long texts get the same label exactly when their first 37 characters agree |
| Cli.IgnoreMask | MSH2FBX/MSH2FBX.cpp:323-337 | the mask is the union of the purposes the valid names denote; the log is one invalid-option warning per invalid name, in the order given, and is empty exactly when every name is valid |
| Cli.IgnoreMaskAppend | MSH2FBX/MSH2FBX.cpp:323-337 | building the mask over two lists of names is building it over each and joining |
| Cli.CheckArguments | MSH2FBX/MSH2FBX.cpp:269-304 | single-file mode is accepted exactly for a ".fbx" destination with some input; per-file mode exactly without destination and base pose and with some input |
| Cli.DirectoryHasNoExtension | MSH2FBX/MSH2FBX.cpp:73-77 | a file name the tool takes for a directory ("", "." or "..") has no extension |
| Cli.DirectoryDestinationRefused | MSH2FBX/MSH2FBX.cpp:269-284 | a directory destination is refused, with the missing-directory message when it does not exist and the extension message when it does |
| Cli.Reopen | MSH2FBX/MSH2FBX.cpp:130-140 | closing and restarting on a new destination always succeeds from a valid session |
| Cli.AddInput | MSH2FBX/MSH2FBX.cpp:143-157 | an input is added exactly when the session runs and the file exists; the override name is the input's stem while adding and is reset only on success |
| Cli.ProcessMsh | MSH2FBX/MSH2FBX.cpp:128-164 | in per-file mode an input succeeds exactly when it exists and its export succeeds, and a missing one leaves the session closed; in single-file mode it succeeds exactly when the running session adds it |
| Cli.ProcessAll | MSH2FBX/MSH2FBX.cpp:341-348 | a phase records every input with its chunk filter and counts exactly the inputs that succeed |
| Cli.Phases | MSH2FBX/MSH2FBX.cpp:339-370 | models are converted without animations, files with nothing filtered, animations without models, in that order |
| Cli.Finish | MSH2FBX/MSH2FBX.cpp:372-384 | a single destination is saved exactly when some input succeeded and is closed either way; per-file mode leaves the session as is |
| Cli.RunTool | MSH2FBX/MSH2FBX.cpp:269-386 | the run is refused exactly when the arguments are; otherwise the ignore mask and its warnings come from the filter options, the inputs are converted in the three phases, and a single destination is saved exactly when something succeeded |

## Left out

- FBX SDK output is not modelled. This covers the exporter, file writing, the scene's unit setting, texture objects and material colours beyond their names.
- Global transforms, cluster matrices and the bind pose (`Bindpose->Add`) are not modelled. They are floating-point matrix computations in the FBX SDK, so transforms are kept as translation, Euler rotation and scale records.
- Animation key interpolation and the frame-to-time division are not modelled. `KeyAdd` and `KeySet` are modelled as setting a value at a frame, and the time span keeps the frame numbers and rate.
- `QuaternionToEuler` and the CRC of a name are function parameters. They are computed outside this model.
- Reading `.msh` files (LibSWBF2) is not part of this model. An asset is its parsed `MshFile` value, and a file system maps paths to parsed assets.
- `GetFiles` is not modelled. The directory crawl is a parameter. `fs::exists` is a lookup in the file system.
- Console output is not modelled: the progress bar's width arithmetic and colour, and `FinishProgress`. Only the 40-character label is kept.
- CLI11 option parsing and its `ExistingPath` checks are not modelled. The parsed options are the input.
- The log callback is not modelled. Logging is a sequence of diagnostics.
- The `bPrintHierachy` info lines are not modelled (`ConverterLib/Converter.cpp:66-74,286-289`).
- Diagnostics.Event: messages are kinds of message, not their texts. Guards against null handles ("FbxManager is NULL!", "Given FbxNode is NULL!", "Given MODL pointer was NULL!", "CRC … has been mapped to null pointer!") and the failure to create an FBX material have no event, because the model has no null handles and creating an object always succeeds.
- Session.SaveFbx: the event `ExportFailed` stands for both "Exporting failed!" and "Initializing export failed!" (`ConverterLib/Converter.cpp:297,303`), and the exporter's status text is not kept.
- Legacy.SaveAsFbx: `ExportFailed` likewise stands for both export messages (`MSH2FBX/Converter.cpp:155,161`). The legacy tool's `Log` takes no severity (`MSH2FBX/MSH2FBX.cpp:6-24`); the severities in the legacy converter's log are a classification added by the model, not something the tool prints.
- Cli.ProgressLabel: lengths are counted in characters. The code counts the bytes of the path's UTF-8 form (`MSH2FBX/MSH2FBX.cpp:52-59`), so a name with multi-byte characters gets a different padding, and the cut after 37 bytes can split a character.
- Cli.LabelRoundTrip: stated over characters, not UTF-8 bytes, for the same reason.
- Cli.LongLabelsAgree: stated over the first 37 characters, not the first 37 UTF-8 bytes, for the same reason.
- The `.NET` and DLL wrappers are not part of this model.
- The destructor is not modelled.
- The "converter.Start failed" branch of `ProcessMSH` is not modelled. It cannot be reached after `Close`, as `Cli.Reopen` states.
- Session.SaveFbx: the export is a parameter `exported`, since writing the file is FBX SDK work.
- Hierarchy.ConsistentTreeIsClean: the lemma is stated only for scenes of at most 1000 nodes. A deeper consistent tree makes the depth guard fire, which the code does as well.
- Scenes.FindByName: when several nodes below the root share a name, the model picks the one with the least node id. `FbxNode::FindChild` searches depth-first in child order (`ConverterLib/Converter.cpp:446`), and the two choices can differ.
- Hierarchy.CheckHierarchy: the contract states the depth guard's silence only for scenes of at most 1000 nodes. On larger scenes the guard can fire, and the model then stops the walk as the code does.
- Weights.Resolve: weights are compared with 0.0 as reals. The 32-bit float comparison of the code is not modelled.

## Findings

| source | as written | input that shows it | evidently intended | confidence | as-written member | corrected member |
|---|---|---|---|---|---|---|
| ConverterLib/Converter.cpp:344-347 | `Close` destroys the base pose asset but does not reset the `Basepose` pointer, and `Start` reloads it only when the base pose file exists | start with a base pose file present, close, remove the file, start again: the running session refers to the freed asset | reset the base pose handle when it is destroyed | not executed | Session.CloseAsWritten (shown by Session.DanglingBaseposeAfterRestart) | Session.Close (with Session.OperationsKeepValid) |
| ConverterLib/Converter.cpp:206-228 | `AddMSH` checks the asset in progress and the file's existence but not the scene, then converts into it | a converter never started, or closed, given an existing file | refuse an asset when there is no scene | not executed | Session.AddGuardsAsWritten (shown by Session.ClosedSessionPassesAddGuards) | Session.AddMsh |
