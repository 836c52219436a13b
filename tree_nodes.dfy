/**
 * One node of the object tree: the PDF object it wraps, the display variant
 * chosen for it, its caption, the dictionary key it was reached through, the
 * object number stamped on it and the recursion flag.
 *
 * The Java factories build a node and then assign some of its fields; the
 * node is new and no one else holds it yet, so each factory is modelled as a
 * function that returns the finished node value.
 */
module TreeNodes {
  import opened Wrappers
  import opened PdfObjects

  /** The three node classes: the generic node, the page node and the page-tree node. */
  datatype NodeVariant = Generic | Page | Pages

  /**
   * A tree node. `parent` is the index of the parent node in the tree that
   * holds it (see module ObjectTree); a node that a factory has just built
   * has none. `number` is -1 until a number is stamped on the node.
   */
  datatype TreeNode = TreeNode(
    variant: NodeVariant,
    pdfObject: PdfObject,
    caption: string,
    key: Option<PdfName>,
    number: int,
    recursive: bool,
    parent: Option<nat>)

  /** The value that marks "no object number stamped". */
  const NOT_INDIRECT := -1

  /** The /Type entry of a dictionary is the name /Page (ISO 32000-1, section 7.7.3.3). */
  predicate IsPageDictionary(o: PdfObject) {
    o.PdfDictionary? && Get(o.entries, TYPE) == Some(Name(PAGE))
  }

  /** The /Type entry of a dictionary is the name /Pages (ISO 32000-1, section 7.7.3.2). */
  predicate IsPagesDictionary(o: PdfObject) {
    o.PdfDictionary? && Get(o.entries, TYPE) == Some(Name(PAGES))
  }

  /** The choice of node class made by the one-argument factory. */
  function Classify(o: PdfObject): (v: NodeVariant)
    ensures v == Page <==> IsPageDictionary(o)
    ensures v == Pages <==> IsPagesDictionary(o)
    ensures v == Generic <==> !IsPageDictionary(o) && !IsPagesDictionary(o)
    ensures v != Generic ==> o.PdfDictionary?
  {
    if o.PdfDictionary? then
      var t := Get(o.entries, TYPE);
      if t == Some(Name(PAGE)) then Page
      else if t == Some(Name(PAGES)) then Pages
      else Generic
    else
      Generic
  }

  /**
   * The caption of an object; `render` is the library's own text form of an
   * object, and None stands for a Java null.
   */
  function Caption(o: Option<PdfObject>, render: PdfObject -> string): (c: string)
    ensures o == None ==> c == "null"
    ensures o.Some? && o.value.IndirectReference? ==> c == "Indirect reference: " + render(o.value)
    ensures o.Some? && o.value.PdfArray? ==> c == "Array"
    ensures o.Some? && o.value.PdfStream? ==> c == "Stream"
    ensures o.Some? && !o.value.IndirectReference? && !o.value.PdfArray? && !o.value.PdfStream?
      ==> c == render(o.value)
  {
    match o
    case None => "null"
    case Some(obj) =>
      match obj
      case IndirectReference(_, _) => "Indirect reference: " + render(obj)
      case PdfArray(_) => "Array"
      case PdfStream(_, _) => "Stream"
      case _ => render(obj)
  }

  /** The caption of a dictionary entry: the key's text form, ": " and the value's text form. */
  function DictionaryEntryCaption(dict: PdfObject, key: PdfName, render: PdfObject -> string): (c: string)
    requires IsDictionaryLike(dict) && key in dict.entries
    ensures |c| == |render(Name(key))| + 2 + |render(dict.entries[key])|
    ensures c[..|render(Name(key))|] == render(Name(key))
    ensures c[|render(Name(key))|..|render(Name(key))| + 2] == ": "
    ensures c[|render(Name(key))| + 2..] == render(dict.entries[key])
  {
    render(Name(key)) + ": " + render(dict.entries[key])
  }

  /** The node wraps an indirect reference; the stamped number, key and flag play no part. */
  function IsIndirectReference(n: TreeNode): (b: bool)
    ensures b <==> n.pdfObject.IndirectReference?
  {
    n.pdfObject.IndirectReference?
  }

  /** The referenced object's number for a reference node, the stamped number otherwise. */
  function GetNumber(n: TreeNode): (r: int)
    ensures IsIndirectReference(n) ==> r == n.pdfObject.number
    ensures !IsIndirectReference(n) ==> r == n.number
  {
    if IsIndirectReference(n) then n.pdfObject.number else n.number
  }

  /** The node stands for an indirect object: it wraps a reference or has a number stamped. */
  function IsIndirect(n: TreeNode): (b: bool)
    ensures IsIndirectReference(n) ==> b
    ensures b <==> IsIndirectReference(n) || GetNumber(n) >= 0
    ensures !b ==> GetNumber(n) <= NOT_INDIRECT
  {
    IsIndirectReference(n) || n.number > NOT_INDIRECT
  }

  /** The node was reached through dictionary key `key`; a null key matches nothing. */
  function IsDictionaryNode(n: TreeNode, key: Option<PdfName>): (b: bool)
    ensures key == None || n.key == None ==> !b
    ensures b <==> key.Some? && n.key == key
  {
    key.Some? && n.key == key
  }

  /** The node refers to an object already shown higher up in the tree. */
  function IsRecursive(n: TreeNode): (b: bool)
    ensures b == n.recursive
  {
    n.recursive
  }

  /** The node with the recursion flag set to `recursive`; nothing else changes. */
  function SetRecursive(n: TreeNode, recursive: bool): (r: TreeNode)
    ensures IsRecursive(r) == recursive
    ensures r.(recursive := n.recursive) == n
  {
    n.(recursive := recursive)
  }

  /** The factory for an object: classify it and caption it. */
  function GetInstance(o: PdfObject, render: PdfObject -> string): (n: TreeNode)
    ensures n.pdfObject == o && n.variant == Classify(o)
    ensures n.caption == Caption(Some(o), render)
    ensures !IsRecursive(n) && n.parent == None
    ensures forall k :: !IsDictionaryNode(n, k)
    ensures GetNumber(n) == if o.IndirectReference? then o.number else NOT_INDIRECT
    ensures IsIndirect(n) <==> o.IndirectReference?
  {
    TreeNode(Classify(o), o, Caption(Some(o), render), None, NOT_INDIRECT, false, None)
  }

  /** The factory for the top node of an indirect object fetched by its number. */
  function GetInstanceNumbered(o: PdfObject, number: int, render: PdfObject -> string): (n: TreeNode)
    ensures n.(number := NOT_INDIRECT) == GetInstance(o, render)
    ensures GetNumber(n) == if o.IndirectReference? then o.number else number
    ensures IsIndirect(n) <==> o.IndirectReference? || number >= 0
  {
    var node := GetInstance(o, render);
    node.(number := number)
  }

  /** The factory for the value stored under `key` in a dictionary. */
  function GetInstanceForKey(dict: PdfObject, key: PdfName, render: PdfObject -> string): (n: TreeNode)
    requires IsDictionaryLike(dict) && key in dict.entries
    ensures n.pdfObject == dict.entries[key] && n.variant == Classify(dict.entries[key])
    ensures n.caption == DictionaryEntryCaption(dict, key, render)
    ensures forall k :: IsDictionaryNode(n, k) <==> k == Some(key)
    ensures !IsRecursive(n) && n.parent == None
    ensures GetNumber(n) == GetNumber(GetInstance(dict.entries[key], render))
    ensures IsIndirect(n) <==> n.pdfObject.IndirectReference?
  {
    var node := GetInstance(dict.entries[key], render);
    node.(caption := DictionaryEntryCaption(dict, key, render), key := Some(key))
  }
}
