# unix-file-system core, in Dafny

This project models the in-memory tree of a small toy Unix-like filesystem:

- the two node kinds, File and Directory;
- the directory operations: insertion with a duplicate check, ordered lookup (optionally depth-first), removal, parent-path propagation, aggregate size and the fixed-width listing;
- the `Filesystem`, which builds a tree from a descriptor (one resource per line: `dir/sub/` declares a directory, `dir/name | contents` a file) and keeps a current-directory cursor.

Modules, in dependency order:

- `Nodes` (nodes.dfy): `datatype Node = File(name, parentPath, contents) | Dir(name, parentPath, children)` with `type`, `path`, `count` and `size`, the two constructors and `update_parent_path` (`Rebind`, plus the loop `UpdateParentPath`).
- `Directory` (directory.dfy):
  - `operator+=` as `AddChild`/`Insert`;
  - `find` as `FindIn`/`Find`;
  - `remove` as `RemoveChild`/`Remove`;
  - the size loop as `ComputeSize`.

  The tree is a value, so each method is the source's loop over a directory value, proved equal to its specification function.
- `Listing` (listing.dfy): `display`, with a decimal rendering and two padding functions standing in for the stream manipulators.
- `Strings` (strings.dfy): `trim` and `split`. `split` loops over what successive `std::getline` calls extract (`Extracted`): the empty string gives no piece, and a final delimiter gives no empty last piece. Each piece is trimmed and kept when non-empty. The proofs reason about `Pieces`, the cut at every delimiter, which has one extra trailing "" in those two cases; `ExtractedTokens` shows that both keep the same tokens.
- `Paths` (paths.dfy): a directory is addressed by the sequence of child names leading to it from the root (`Resolve`); `InsertAt` is `operator+=` applied at such a path.
- `Descriptor` (descriptor.dfy): the constructor's parser. Each line is:
  - trimmed;
  - classified at its first `|` (`Classify`);
  - walked component by component, reusing or creating directories (`Descend`, `Walk`);
  - completed by placing the file or the last directory (`Place`).

  `ParseDescriptor` is the line loop, proved equal to `DescribedTree`.
- `Filesystem` (filesystem.dfy): class `Filesystem` with fields `root: Node` and `cursor: seq<string>`, and the members `Open` (the constructor), `CurrentDirectory`, `ChangeDirectory` and `Add` (`operator+=`).
- `Scenario` (scenario.dfy): a three-line descriptor worked through end to end, for any plain names and contents.

These behaviours are modelled exactly as the code has them:

- `Directory::operator+=` rebinds the new child to the container's own stored parent path, not to the container's `path()`. Every node the parser creates therefore keeps the parent path `/`.
- With RECURSIVE, `find` checks child i, then searches inside child i, before it looks at child i + 1. That is a pre-order walk (`FindDepthFirst`).
- A directory line walks all of its components and then looks for the last component again inside the directory it reached. The first `images/` therefore yields `images/images/` (`DirLineNests`, `Scenario.ScenarioParses`).
- `change_directory` looks for the exact stored name among the direct children. Directory names are stored with a trailing `/`, so entering `docs/` works and `docs` is not found.

After the lines `images/`, `images/cat.png | binarydata123` and `docs/readme.txt | hello world`, the directory `images/` holds the directory `images/` and the file `cat.png`. The root holds two directories and 24 bytes (`Scenario.ScenarioParses`, with d = `images`, f = `cat.png`, e = `docs`, g = `readme.txt`).

## Model

| member | source | states |
|---|---|---|
| Nodes.Node.Type | src/Directory.cpp:35-37 | the kind is DIR exactly for directories, FILE exactly for files |
| Nodes.Node.Path | src/Directory.cpp:39-44 | the path is the parent path, then a separator only when the parent does not end in one, then the name; its length is exactly those parts' lengths, so no '/' is doubled |
| Nodes.JoinPath | src/File.cpp:19-24 | exactly one '/' between parent and name: the length grows by one only when the parent does not end in '/' |
| Nodes.Node.Count | src/Directory.cpp:50-52 | -1 exactly for files; the number of direct children for a directory |
| Nodes.NewFile | src/File.cpp:7-9 | the name and contents are stored verbatim (no '/' added, empty name accepted), parent path "/", size is the contents' length, count -1 |
| Nodes.NewDir | src/Directory.cpp:7-16 | fails with EmptyName exactly on the empty name; otherwise the stored name ends in '/', adds one only when it was missing, no children, parent path "/" |
| Nodes.NewDirIdempotent | src/Directory.cpp:10-13 | constructing from a stored directory name gives the same directory |
| Nodes.Rebind | src/Directory.cpp:26-33 | `update_parent_path` sets the given parent path and keeps the name, the kind, a file's contents and the number of children |
| Nodes.UpdateParentPath | src/Directory.cpp:26-33 | the loop over the children rebinds the whole subtree exactly as `Rebind` specifies |
| Nodes.RebindOnlyMovesPaths | src/File.cpp:11-13 | rebinding sets the parent path and changes no name, contents or child order anywhere |
| Nodes.RebindPlacesSubtree | src/Directory.cpp:26-33 | after rebinding, every descendant's parent path is its parent's `path()` |
| Nodes.RebindAbsorbs | src/Directory.cpp:26-33 | rebinding twice is the same as rebinding once to the second path |
| Nodes.WellPlacedIsFixpoint | src/Directory.cpp:26-33 | a subtree is consistently placed if and only if rebinding it to its own parent path leaves it unchanged |
| Nodes.SizeIgnoresPaths | src/Directory.cpp:54-60 | size depends only on names and contents, never on parent paths |
| Nodes.RebindKeepsShape | src/File.cpp:11-13 | rebinding keeps the name, kind, count and size |
| Nodes.SizeIsContentLength | src/Directory.cpp:54-60 | a node's size is the total length of all file contents below it |
| Nodes.SumIsContentLength | src/Directory.cpp:54-60 | the summed sizes of siblings are the total length of their contents |
| Directory.FirstIndex | src/Directory.cpp:63-65 | the position of the first child with the name; none exactly when no child has it |
| Directory.AddChild | src/Directory.cpp:62-70 | fails with Duplicate exactly when a direct child has the name; otherwise the children are the old ones in order plus the new node rebound to the directory's own parent path, and name and parent path are kept |
| Directory.Insert | src/Directory.cpp:62-70 | the scan-then-push loop computes `AddChild` |
| Directory.AddChildSize | src/Directory.cpp:62-70 | a successful insertion adds the inserted subtree's size and one to the count |
| Directory.UniqueNamesIgnorePaths | src/Directory.cpp:67 | rebinding cannot create or remove a name clash |
| Directory.AddChildKeepsUnique | src/Directory.cpp:63-68 | the duplicate check keeps sibling names unique throughout the subtree |
| Directory.FindAt | src/Directory.cpp:76-83 | for one child: a match is returned as soon as its name is equal; anything found has the target name; without RECURSIVE something is found exactly when the child's own name matches |
| Directory.FindIn | src/Directory.cpp:72-87 | anything found has the target name; a direct child with the name guarantees a result; without RECURSIVE a result exists exactly when a direct child has the name |
| Directory.Find | src/Directory.cpp:72-87 | the loop with its early returns computes `FindIn`, and changes nothing |
| Directory.FindDirect | src/Directory.cpp:75-76 | without RECURSIVE, `find` returns the first direct child with an equal name, or nothing |
| Directory.FindDepthFirst | src/Directory.cpp:75-85 | with RECURSIVE, `find` returns the first node with the name in pre-order over the children in insertion order |
| Directory.FindAtDepthFirst | src/Directory.cpp:76-83 | for one child: the child if it matches, else the first match in its own pre-order |
| Directory.FindRecursiveExtends | src/Directory.cpp:72-87 | whatever the direct search finds, the recursive search finds something too |
| Directory.RemoveChild | src/Directory.cpp:89-103 | NotFound exactly when no direct child has the name; IsDirectory exactly when the first match is a directory and RECURSIVE is off; no other error; success exactly when a direct child has the name and it is a file or RECURSIVE is set, leaving one child fewer |
| Directory.Remove | src/Directory.cpp:89-103 | the iterator loop computes `RemoveChild` |
| Directory.RemoveChildSize | src/Directory.cpp:92-99 | removal erases the first match, keeps the others in order, and the size drops by that child's size |
| Directory.RemoveUndoesAdd | src/Directory.cpp:89-103 | removing, with RECURSIVE, the node just inserted gives the directory back |
| Directory.RemoveChildKeepsUnique | src/Directory.cpp:92-99 | in a directory with unique names, removal keeps them unique and the removed name is gone |
| Directory.ComputeSize | src/Directory.cpp:54-60 | the accumulation loop returns `size()` |
| Listing.DecimalString | src/Directory.cpp:107 | the number is written as decimal digits with no leading zero |
| Listing.DecimalRoundTrip | src/Directory.cpp:107 | reading the written digits gives the number back |
| Listing.DecimalWidth | src/Directory.cpp:121-125 | a number below 10^w takes at most w characters |
| Listing.PadLeft | src/Directory.cpp:121-122 | right-aligned in width w: spaces on the left, the text unchanged at the end, never cut |
| Listing.PadRight | src/Directory.cpp:115 | left-aligned in width w: the text unchanged at the start, spaces on the right, never cut |
| Listing.Display | src/Directory.cpp:105-130 | the writing loop produces the header and one row per child, in order (`Listing`) |
| Listing.RowFields | src/Directory.cpp:108-129 | a row opens with the four-character marker (D for a directory, F for a file, then a bar between spaces), then the whole name, and ends with a newline; a short row is the name padded to 15 columns plus the two separators |
| Listing.RowWidth | src/Directory.cpp:108-129 | rows of names up to 15 characters, counts up to 2 digits and sizes up to 10 digits all have one width: 46 long, 23 short |
| Listing.HeaderIsOneLine | src/Directory.cpp:107 | the total-size header is exactly one line |
| Listing.RowIsOneLine | src/Directory.cpp:108-129 | each child's row is exactly one line |
| Listing.ListingLines | src/Directory.cpp:105-130 | the listing has one line for the total and one per direct child |
| Strings.FirstNonSpace | src/Filesystem.cpp:12 | every character before the index is whitespace and the one at it is not |
| Strings.EndNonSpace | src/Filesystem.cpp:15 | every character from the index on is whitespace and the one before it is not |
| Strings.Trim | src/Filesystem.cpp:10-17 | the result is the slice from the first to the last non-whitespace character: trimmed, empty exactly when all characters are whitespace, only whitespace dropped |
| Strings.TrimFramed | src/Filesystem.cpp:10-17 | trimming a trimmed core framed by whitespace gives exactly the core |
| Strings.TrimIdempotent | src/Filesystem.cpp:10-17 | trimming twice is trimming once |
| Strings.UpTo | src/Filesystem.cpp:24 | one `getline` call extracts the longest delimiter-free prefix, stopping at a delimiter or at the end |
| Strings.Extracted | src/Filesystem.cpp:22-24 | the successive `getline` results: no piece holds the delimiter |
| Strings.Pieces | src/Filesystem.cpp:22-24 | the cut at every delimiter has at least one piece, none holding the delimiter |
| Strings.PiecesExtracted | src/Filesystem.cpp:22-24 | `getline`'s pieces are the cut at every delimiter without the trailing "" that an empty string or a final delimiter adds |
| Strings.ExtractedFinalDelimiter | src/Filesystem.cpp:24 | `a` followed by the delimiter extracts only `a`, while the cut at every delimiter also gives an empty last piece |
| Strings.ExtractedTokens | src/Filesystem.cpp:24-27 | keeping the trimmed non-empty `getline` pieces gives the same tokens as keeping those of the cut at every delimiter |
| Strings.PiecesJoin | src/Filesystem.cpp:22-24 | joining the pieces with the delimiter gives the string back |
| Strings.PiecesOfJoin | src/Filesystem.cpp:22-24 | cutting the join of delimiter-free pieces gives the pieces back |
| Strings.KeepAll | src/Filesystem.cpp:25-27 | every kept token is non-empty and trimmed |
| Strings.Split | src/Filesystem.cpp:20-30 | the loop over the `getline` results returns their trimmed, non-empty forms in order (`Tokens`) |
| Strings.TokensShape | src/Filesystem.cpp:20-30 | no token of `split` is empty, holds the delimiter, or has whitespace at either end |
| Strings.TokensOfPath | src/Filesystem.cpp:20-30 | no path token is empty, holds '/', or changes when trimmed |
| Strings.TokensOfJoin | src/Filesystem.cpp:20-30 | splitting the join of non-empty, trimmed, delimiter-free tokens gives the tokens back |
| Paths.Resolve | src/Filesystem.cpp:120-124 | a cursor path resolves only from a directory and only to a directory |
| Paths.Enter | src/Filesystem.cpp:120-122 | entering succeeds exactly when the non-recursive `find` returns a directory, and yields that directory |
| Paths.ResolveAppend | src/Filesystem.cpp:120-124 | resolving a path one name longer is entering that name from the prefix's directory |
| Paths.InsertAt | src/Filesystem.cpp:108-111 | inserting at a directory fails with Duplicate exactly when it has a child with the name; otherwise that directory becomes its `AddChild` result and the root keeps its name and parent path |
| Paths.InsertAtSize | src/Filesystem.cpp:108-111 | an insertion anywhere adds exactly the inserted subtree's size to the root |
| Paths.InsertAtKeepsUnique | src/Filesystem.cpp:108-111 | an insertion anywhere keeps sibling names unique in the whole tree |
| Paths.InsertAtElsewhere | src/Filesystem.cpp:108-111 | a successful insertion leaves every directory off the insertion chain exactly as it was: same contents, sizes and parent paths |
| Paths.InsertAtKeepsPaths | src/Filesystem.cpp:108-111 | every directory reachable before an insertion is still reachable by the same names |
| Descriptor.Slashed | src/Filesystem.cpp:70-72 | a component gets '/' appended only when it does not end in one |
| Descriptor.CharIndex | src/Filesystem.cpp:50 | the first position of the character, or the length when there is none |
| Descriptor.Classify | src/Filesystem.cpp:49-62 | a line is a file line exactly when it holds a bar character; components are non-empty, '/'-free and trimmed; contents are trimmed |
| Descriptor.Descend | src/Filesystem.cpp:70-84 | the walk reuses the first child with the slashed name when it is a directory, creates and adds it when missing, and fails with Duplicate exactly when that child is a file |
| Descriptor.Walk | src/Filesystem.cpp:63-85 | a successful walk ends at the directory named by the slashed components, which exists; a failure is a Duplicate |
| Descriptor.Place | src/Filesystem.cpp:87-103 | placing keeps the root's name and parent path and fails only with Duplicate |
| Descriptor.PlaceDir | src/Filesystem.cpp:94-102 | placing a directory line's last component keeps the root's name and parent path and fails only with Duplicate |
| Descriptor.ApplyLine | src/Filesystem.cpp:62-103 | a parsed line applied to the tree keeps the root and fails only with Duplicate |
| Descriptor.Step | src/Filesystem.cpp:45-47 | a line is trimmed; a blank line is skipped; the root's name and parent path are kept |
| Descriptor.Build | src/Filesystem.cpp:44-104 | lines are applied in order and the first failure ends the parse; the root is kept |
| Descriptor.RootName | src/Filesystem.cpp:34 | an empty root name becomes "/" |
| Descriptor.DescribedTree | src/Filesystem.cpp:32-106 | a built tree's root is the directory made from the effective root name, with parent path "/" |
| Descriptor.WalkComponents | src/Filesystem.cpp:68-85 | the component loop computes `Walk` |
| Descriptor.ParseLine | src/Filesystem.cpp:45-103 | the body of the line loop computes `Step` |
| Descriptor.ParseDescriptor | src/Filesystem.cpp:43-104 | the line loop computes `DescribedTree` |
| Descriptor.DescendSize | src/Filesystem.cpp:74-84 | walking through or creating a directory adds no size |
| Descriptor.WalkSize | src/Filesystem.cpp:68-85 | a whole walk adds no size |
| Descriptor.ApplyLineSize | src/Filesystem.cpp:87-103 | a file line adds exactly its contents' length; a directory line adds nothing |
| Descriptor.BuildSize | src/Filesystem.cpp:44-104 | the built tree's size is the start size plus every declared contents' length |
| Descriptor.DescriptorSize | src/Filesystem.cpp:32-106 | a parsed tree's size is the total length of the declared contents |
| Descriptor.DescendKeepsUnique | src/Filesystem.cpp:74-84 | a walk step keeps sibling names unique |
| Descriptor.WalkKeepsUnique | src/Filesystem.cpp:68-85 | a walk keeps sibling names unique |
| Descriptor.ApplyLineKeepsUnique | src/Filesystem.cpp:62-103 | applying a line keeps sibling names unique |
| Descriptor.BuildKeepsUnique | src/Filesystem.cpp:44-104 | building keeps sibling names unique |
| Descriptor.DescriptorUnique | src/Filesystem.cpp:32-106 | no directory of a parsed tree has two children with the same name |
| Descriptor.WalkExisting | src/Filesystem.cpp:74-84 | re-walking an existing chain creates no duplicate and changes nothing |
| Descriptor.ApplyLineWalks | src/Filesystem.cpp:63-103 | a line that applies cleanly walked its leading components and then placed its resource |
| Descriptor.PlaceDirHasChild | src/Filesystem.cpp:94-102 | after a directory line's placement, the directory the walk reached holds a child named after the last component |
| Descriptor.DirLineNests | src/Filesystem.cpp:94-102 | after a directory line `.../x`, the directory `.../x/` holds a child `x/` |
| Descriptor.PlaceDirExisting | src/Filesystem.cpp:98-99 | a directory placement whose name exists changes nothing |
| Descriptor.DirLineIdempotent | src/Filesystem.cpp:66-102 | repeating a directory line changes nothing and does not fail |
| Descriptor.FileLineTwiceFails | src/Filesystem.cpp:87-93 | declaring the same file twice fails on the second line with Duplicate, whatever its contents |
| Descriptor.ClassifyFormat | src/Filesystem.cpp:49-62 | a line written from plain components and trimmed contents is read back as written |
| Filesystem.Filesystem.Init | src/Filesystem.cpp:35-36 | the filesystem starts at the root of the given tree |
| Filesystem.Filesystem.Open | src/Filesystem.cpp:32-106 | construction fails exactly when the parse fails, with its error; otherwise the root is the parsed tree, the cursor is at the root, the size is the declared bytes and names are unique |
| Filesystem.Filesystem.CurrentDirectory | src/Filesystem.cpp:128-130 | the current directory is always a directory reached from the root by the cursor |
| Filesystem.Filesystem.ChangeDirectory | src/Filesystem.cpp:113-126 | "" returns to the root; otherwise only direct children are searched, a directory becomes current, and a missing name or a file is an error with the cursor unchanged; the tree never changes |
| Filesystem.Filesystem.Add | src/Filesystem.cpp:108-111 | the resource is added to the current directory with the duplicate rule; on failure nothing changes; on success the size grows by the resource's size, names stay unique, and every directory off the path to the current one is unchanged |
| Scenario.DirDeclReads | src/Filesystem.cpp:58-62 | the line `d/` is read as a directory line with the single component `d` |
| Scenario.FileDeclReads | src/Filesystem.cpp:50-62 | the line made of `d/f`, a bar and `c` is read as a file line with components `d`, `f` and contents `c` |
| Scenario.FirstApplies | src/Filesystem.cpp:94-102 | the first directory line creates `d/` and, inside it, `d/` again |
| Scenario.SecondApplies | src/Filesystem.cpp:87-93 | a file line under an existing directory adds the file there |
| Scenario.ThirdApplies | src/Filesystem.cpp:63-93 | a file line under a new directory creates it beside the first and adds the file there |
| Scenario.ScenarioParses | src/Filesystem.cpp:32-106 | the three lines parse to the expected tree: two directories at the root, the total of both contents' lengths as size, and two entries in the first directory |
| Scenario.ExpectedSize | src/Directory.cpp:54-60 | the expected tree's size is the sum of its two files' lengths |

## Left out

- Opening the descriptor with `std::ifstream`, and the "Invalid file name" failure: the parser takes the file's lines as a sequence of strings.
- src/main.cpp, the interactive console menu: it is console I/O only.
- Destructors and `delete`: the tree is a value, so removing a child drops it from the sequence. The defaulted move operations of `Filesystem` copy owning pointers and have no functional content.
- The aliasing of `m_current` into the tree is not modelled. The cursor is the list of child names from the root, so a cursor left dangling by a removal cannot arise. The source leaves that case undefined.
- Exception texts, and the difference between throwing `std::string` and `std::invalid_argument`: each failure is one kind of the `Error` datatype.
- Filesystem.Filesystem.ChangeDirectory: the source reports a missing name and a file target with the same exception. The model reports them as NotFound and NotADirectory. Neither changes the cursor.
- Character encoding: each Dafny `char` stands for one byte (`char`) of a `std::string`. So `|contents|` is the byte count that `size()` returns and `display` prints as bytes, and `trim`, `split` and name comparison work byte by byte. The model does not decode UTF-8: a non-ASCII text must be given as its bytes, one `char` each.
- `size_t` and `int` overflow of sizes and counts: sizes are unbounded naturals.
- Descriptor.Step: a line whose path part has no non-empty component is excluded by a precondition (`HasSegment`), because the source then underflows `components.size() - 1` and reads `components.back()` of an empty vector.
- `Resource.h` and `Flags.h` are not part of this model. The shared fields `m_name` and `m_parent_path`, `NodeType` and the flags are inferred from their use. RECURSIVE and LONG are booleans. `File` keeps its own `m_contents`, with "" as the default contents (src/File.h:9-11). The File constructor does not set a parent path, and the initial value lives in `Resource.h`, so a new File's parent path is taken to be "/", as for a Directory.
- The `iomanip` stream state in `display` is not modelled: numbers and padding are written by `DecimalString`, `PadLeft` and `PadRight`.
- `name()` is the `name` field of `Node` and has no member of its own.
- Listing: the exact characters of each row are given by `Row`. The lemmas about it state line structure and width, not a parse back into fields.
