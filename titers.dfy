/** The result documents of the two titer-model commands: the substitution
    model (`infer_substitution_model.run`) and the tree model
    (`infer_tree_model.run`). The fitted models are given by what the commands
    read from them; fitting them is not part of this model. */
module Titers {
  import opened Dict
  import opened Phylo
  import opened BranchEffects
  import opened SubstitutionAnnotation

  datatype Option<T> = None | Some(value: T)

  /** A fitted substitution model as the command uses it: the four compiled
      tables (of a type this model leaves open), the fitted effect per
      substitution, and `get_mutations`. */
  datatype SubstitutionModel<P> = SubstitutionModel(
    titers: P, potencies: P, virusEffects: P, substitutionEffects: P,
    substitutionEffect: Effects, mutations: Mutations)

  /** A fitted tree model: its three compiled tables. */
  datatype TreeModel<P> = TreeModel(titers: P, potencies: P, virusEffects: P)

  /** What the tree model leaves on a clade: `{"dTiter": ..., "cTiter": ...}`. */
  datatype TreeDrop = TreeDrop(dTiter: real, cTiter: real)

  /** A value of a result document. */
  datatype Value<P> =
    | Compiled(table: P)
    | SubstitutionNodeTable(subNodes: map<string, Drop>)
    | TreeNodeTable(treeNodes: map<string, TreeDrop>)

  type Document<P> = map<string, Value<P>>

  /** The substitution-model document: the four compiled tables, and the
      node annotations under "nodes" exactly when there are any. */
  function SubstitutionDocument<P>(model: SubstitutionModel<P>, nodes: Option<map<string, Drop>>): (doc: Document<P>)
    ensures nodes.None? ==> doc.Keys == {"titers", "potency", "avidity", "substitution"}
    ensures nodes.Some? ==> doc.Keys == {"titers", "potency", "avidity", "substitution", "nodes"}
    ensures doc["titers"] == Compiled(model.titers) && doc["potency"] == Compiled(model.potencies)
    ensures doc["avidity"] == Compiled(model.virusEffects) && doc["substitution"] == Compiled(model.substitutionEffects)
    ensures nodes.Some? ==> doc["nodes"] == SubstitutionNodeTable(nodes.value)
  {
    var subsModel := map[
      "titers" := Compiled(model.titers),
      "potency" := Compiled(model.potencies),
      "avidity" := Compiled(model.virusEffects),
      "substitution" := Compiled(model.substitutionEffects)];
    match nodes
    case None => subsModel
    case Some(annotations) => subsModel["nodes" := SubstitutionNodeTable(annotations)]
  }

  /** `infer_substitution_model.run` after fitting: the document, with the tree
      annotated when a tree is given. */
  method InferSubstitutionModel<A, P>(model: SubstitutionModel<P>, tree: Option<Clade<A>>) returns (doc: Document<P>)
    ensures "nodes" in doc <==> tree.Some?
    ensures tree.None? ==> doc == SubstitutionDocument(model, None)
    ensures tree.Some? ==>
      doc == SubstitutionDocument(model, Some(SubstitutionNodes(tree.value, model.mutations, model.substitutionEffect)))
  {
    match tree
    case None =>
      doc := SubstitutionDocument(model, None);
    case Some(t) =>
      var nodes := AnnotateSubstitutions(t, model.mutations, model.substitutionEffect);
      doc := SubstitutionDocument(model, Some(nodes));
  }

  /** The tree model's `nodes`: `{n.name: {dTiter, cTiter} for n in find_clades()}`.
      Its keys are the clade names; when names are unique every clade's name
      maps to that clade's own values. */
  function TreeNodes(tree: Clade<TreeDrop>): (nodes: map<string, TreeDrop>)
    ensures nodes.Keys == NodeNames(tree)
    ensures UniqueNames(tree) ==> forall n :: n in PreOrder(tree) ==> n.name in nodes && nodes[n.name] == n.attrs
  {
    LabelledTable(tree, Labelled(PreOrder(tree)));
    ToMap(Labelled(PreOrder(tree)))
  }

  /** The tree-model document, from the tree as the fitted model annotated it. */
  function TreeModelDocument<P>(model: TreeModel<P>, tree: Clade<TreeDrop>): (doc: Document<P>)
    ensures doc.Keys == {"titers", "potency", "avidity", "nodes"}
    ensures doc["titers"] == Compiled(model.titers) && doc["potency"] == Compiled(model.potencies)
    ensures doc["avidity"] == Compiled(model.virusEffects)
    ensures doc["nodes"].TreeNodeTable? && doc["nodes"].treeNodes.Keys == NodeNames(tree)
    ensures doc["nodes"] == TreeNodeTable(TreeNodes(tree))
  {
    map[
      "titers" := Compiled(model.titers),
      "potency" := Compiled(model.potencies),
      "avidity" := Compiled(model.virusEffects),
      "nodes" := TreeNodeTable(TreeNodes(tree))]
  }
}
