# RUPS object-tree nodes in Dafny

RUPS shows the object graph of a PDF document as a tree. Each tree node wraps
one PDF object. The node's class is chosen from the object: a page
dictionary gets a page node, a page-tree dictionary gets a pages node, and
every other object gets a generic node. The node carries a caption, the
dictionary key it was reached through, and an optional object number stamped
on it. It also has a "recursive" flag. The flag marks a reference to an
object that is already shown higher up in the tree. For such a node, the
ancestor search walks up the parent links to the node the reference
points back to.

This project models that node class and proves properties of the model.

- `pdf_objects.dfy` (module `PdfObjects`): the nine PDF object kinds of
  ISO 32000-1, section 7.3, PDF names, and dictionary lookup.
- `tree_nodes.dfy` (module `TreeNodes`):
  - the node variants `Generic`, `Page` and `Pages`, and the node record;
  - the classification and the two caption rules;
  - the three factories;
  - the accessors `IsIndirectReference`, `IsIndirect`, `GetNumber`,
    `IsDictionaryNode` and `IsRecursive`.
- `object_tree.dfy` (module `ObjectTree`):
  - the tree as an arena: the class `NodeArena` holds a sequence of nodes,
    named by index, and each node keeps its parent's index;
  - attaching a child, which is what Swing's tree node does when a child is
    added;
  - setting the recursion flag in place;
  - the ancestor search, as a loop up the parent links.
- `wrappers.dfy` (module `Wrappers`): `Option`, which stands for a Java
  reference that may be null.

Design points:

- **Rendering is a parameter.** The library's text form of an object
  (`toString()`) is passed in as a parameter, `render: PdfObject -> string`.
  Every caption property holds for every rendering.
- **Factories are functions.** The Java factories build a node and then set
  its number, key or caption. That node is new and nobody else holds it yet,
  so each factory is modelled as a function that returns the finished node
  value.
- **Classification follows the code.**
  - Only a true dictionary is specialised. A stream with `/Type /Page` gets a
    generic node: the library's stream class extends its dictionary class,
    but its `isDictionary()` answers false.
  - The `/Type` entry must be the name itself. An indirect reference to a
    name does not count, because the name comparison does not resolve it.
- **`isIndirect` follows its code, not its comments.** The comments at
  PdfObjectTreeNode.java:51 and :83-85 call a numbered node indirect, but
  `isIndirect` (line 137) tests `number > -1`. So a node stamped with a
  negative number is not indirect, and the model follows the code.
- **Preconditions are the source's own null dereferences.**
  - `GetInstanceForKey` and `DictionaryEntryCaption` require the key to be
    present. The source dereferences the missing value.
  - `GetAncestor` requires a matching ancestor when the node is flagged. The
    source's `while(true)` loop otherwise walks past the root and
    dereferences null.

## Model

| member | source | states |
|---|---|---|
| `TreeNodes.Classify` | src/com/lowagie/rups/nodetypes/PdfObjectTreeNode.java:70-80 | Page exactly for a dictionary whose /Type is the name /Page. Pages exactly for one whose /Type is /Pages. Generic for everything else, including streams and dictionaries with another /Type or none. Only dictionaries are ever specialised. |
| `TreeNodes.Caption` | src/com/lowagie/rups/nodetypes/PdfObjectTreeNode.java:214-226 | A null object gives "null". A reference gives "Indirect reference: " followed by its rendering. An array gives exactly "Array" and a stream exactly "Stream". Every other kind gives its rendering. |
| `TreeNodes.DictionaryEntryCaption` | src/com/lowagie/rups/nodetypes/PdfObjectTreeNode.java:234-239 | The caption splits into the key's rendering, ": ", and the raw rendering of the value. The value's part is not its caption. The key must be present. |
| `TreeNodes.GetInstance` | src/com/lowagie/rups/nodetypes/PdfObjectTreeNode.java:47-80 | A fresh node wraps the object, has the classified variant and has caption `Caption(object)`. It is not recursive, has no parent, and is a dictionary node for no key. Its number is the reference's number, or -1 for a direct object. It is indirect exactly when it wraps a reference. |
| `TreeNodes.GetInstanceNumbered` | src/com/lowagie/rups/nodetypes/PdfObjectTreeNode.java:88-92 | The node equals the one-argument factory's node except for the stamped number. `GetNumber` gives the reference's number for a reference and the stamped number otherwise. The node is indirect exactly when it wraps a reference or the stamp is at least 0. |
| `TreeNodes.GetInstanceForKey` | src/com/lowagie/rups/nodetypes/PdfObjectTreeNode.java:100-105 | The node wraps `dict[key]` and is classified by it. Its caption is the dictionary-entry caption. It answers `IsDictionaryNode(k)` exactly for `k == key` (never for null). It is not recursive, and it gets its number from the wrapped value. |
| `TreeNodes.IsIndirectReference` | src/com/lowagie/rups/nodetypes/PdfObjectTreeNode.java:128-130 | True exactly when the wrapped object is an indirect reference; the stamped number, key and flag play no part. |
| `TreeNodes.GetNumber` | src/com/lowagie/rups/nodetypes/PdfObjectTreeNode.java:160-165 | For a reference node, the referenced object's number, whatever number is stamped. For any other node, the stamped number (-1 unless stamped). |
| `TreeNodes.IsIndirect` | src/com/lowagie/rups/nodetypes/PdfObjectTreeNode.java:136-138 | Every reference node is indirect. Otherwise a node is indirect exactly when its number is at least 0; a node that is not indirect has a number of -1 or less. |
| `TreeNodes.IsDictionaryNode` | src/com/lowagie/rups/nodetypes/PdfObjectTreeNode.java:119-122 | True exactly when the key is not null and equals the recorded key. A null key, or a node with no recorded key, gives false. |
| `TreeNodes.IsRecursive` | src/com/lowagie/rups/nodetypes/PdfObjectTreeNode.java:152-154 | Reads back the recursion flag, which starts false in every factory and is changed only by `SetRecursive`. |
| `TreeNodes.SetRecursive` | src/com/lowagie/rups/nodetypes/PdfObjectTreeNode.java:144-154 | `IsRecursive` then answers the given flag, and no other field changes. |
| `ObjectTree.AncestorChain` | src/com/lowagie/rups/nodetypes/PdfObjectTreeNode.java:248-254 | These are the nodes the upward walk visits, nearest first. Each is a proper ancestor with a smaller index, so the walk never visits the node itself. |
| `ObjectTree.ChainStep` | src/com/lowagie/rups/nodetypes/PdfObjectTreeNode.java:250 | While the chain still holds an entry, the current node has a parent: that entry. The parent's own chain is the rest of the chain. |
| `ObjectTree.ChainClimbs` | src/com/lowagie/rups/nodetypes/PdfObjectTreeNode.java:249-250 | Each step of the walk moves strictly towards the root, so the walk ends. |
| `ObjectTree.ChainDependsOnlyOnParents` | src/com/lowagie/rups/nodetypes/PdfObjectTreeNode.java:42 | Two trees whose parent links agree up to a node give that node the same ancestors. |
| `ObjectTree.AppendKeepsChains` | src/com/lowagie/rups/nodetypes/PdfObjectTreeNode.java:42 | Attaching a child keeps the tree well formed and changes no existing node's ancestors. The new node's ancestors are its parent followed by the parent's ancestors. |
| `ObjectTree.FlagUpdateKeepsChains` | src/com/lowagie/rups/nodetypes/PdfObjectTreeNode.java:144-146 | Setting a recursion flag changes no node's ancestors. |
| `ObjectTree.AppendKeepsRecursionSound` | src/com/lowagie/rups/nodetypes/PdfObjectTreeNode.java:241-257 | Suppose every flagged node has a matching ancestor. This stays true after attaching an unflagged node. It also stays true after attaching a flagged node whose parent, or an ancestor of that parent, is a reference to the same number. |
| `ObjectTree.FlagUpdateKeepsRecursionSound` | src/com/lowagie/rups/nodetypes/PdfObjectTreeNode.java:140-146 | Clearing a flag keeps every flagged node's matching ancestor. Setting a flag on a node that has a matching ancestor does too. |
| `ObjectTree.NodeArena.constructor` | src/com/lowagie/rups/nodetypes/PdfObjectTreeNode.java:42 | An empty, well-formed tree. |
| `ObjectTree.NodeArena.Add` | src/com/lowagie/rups/nodetypes/PdfObjectTreeNode.java:42 | The node is appended with the given parent and its index is returned. The old nodes and their ancestors are unchanged. |
| `ObjectTree.NodeArena.SetRecursive` | src/com/lowagie/rups/nodetypes/PdfObjectTreeNode.java:144-146 | Only the flag of the named node changes. Every node keeps its ancestors. |
| `ObjectTree.NodeArena.GetAncestor` | src/com/lowagie/rups/nodetypes/PdfObjectTreeNode.java:246-257 | An unflagged node gives null. A flagged node gives the nearest proper ancestor that wraps a reference with the same `GetNumber`: no nearer ancestor qualifies, and the node itself never does. |
| `ObjectTree.BackReferenceExample` | src/com/lowagie/rups/nodetypes/PdfObjectTreeNode.java:246-257 | Object 1 has /Next pointing to object 2, and object 2 has /Prev pointing back to object 1. After expanding /Root, /Next and /Prev, the flagged /Prev node's ancestor is the /Root reference node: the walk skips the /Next node and stops at /Root, before it reaches the trailer. |

## Left out

- `getIcon` (PdfObjectTreeNode.java:171-207) only loads Swing image resources, so it has no model.
- The text rendering of PDF objects (`toString()` of the PDF library) is library code. It is the parameter `render`, about which nothing is assumed.
- `getPdfObject` is the field `pdfObject` of the node record. It needs no separate member.
- Swing's tree-node machinery is not modelled: children lists, the user-object slot and tree events. Only the parent link and the caption are modelled. A node's identity is its index in the arena, so reparenting a node is not modelled.
- The cast to the node class in `getAncestor` would fail on a foreign root node. It is not modelled, because every node in the arena is an object-tree node.
- The page-node and pages-node subclasses are not part of this model. Only the variant tag is kept.
- The constructors of the page-node and pages-node subclasses (called at lines 73 and 76) are not part of this model. They are assumed to pass the dictionary unchanged to the constructor at line 60, so their caption is `Caption(object)` like a generic node's.
- The tree-expansion code that decides when to set the flag is not part of this model either. The lemmas about keeping every flagged node's ancestor state the condition that code must meet.
- The factories update a node in place before returning it. They are functions here, so they do not show in-place update. Nothing else can observe the node before they return.
- The background loader `PdfWorker` is not modelled. It is a Swing background task with an unsynchronised static busy flag, a progress dialog and an update callback, and it loops over an object store whose code is not part of this model.
- Java `int` is unbounded here. The model does no arithmetic on object numbers, so wrap-around cannot arise.
