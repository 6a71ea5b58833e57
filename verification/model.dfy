/** The ndoc document model: one module with its description and an ordered
    list of documented functions, each with a description, ordered parameters
    and one return entry. */
module Model {

  /** A parameter entry `{ name, type, desc }`. */
  datatype Param = Param(name: string, typ: string, desc: string)

  /** A return entry `{ type, desc }`. */
  datatype Return = Return(typ: string, desc: string)

  datatype FunctionDoc = FunctionDoc(name: string, desc: string, params: seq<Param>, ret: Return)

  datatype ModuleDoc = ModuleDoc(name: string, desc: string, functions: seq<FunctionDoc>)

  datatype Documentation = Documentation(mod: ModuleDoc)

  /** `new Documentation()`: a module with no name, no description and no functions. */
  function NewDocumentation(): (d: Documentation)
    ensures d.mod.name == [] && d.mod.desc == [] && d.mod.functions == []
  {
    Documentation(ModuleDoc("", "", []))
  }

  /** `new FunctionDoc(name)`: the name is kept verbatim, everything else is empty. */
  function NewFunctionDoc(name: string): (f: FunctionDoc)
    ensures f.name == name
    ensures f.desc == [] && f.params == []
    ensures f.ret.typ == [] && f.ret.desc == []
  {
    FunctionDoc(name, "", [], Return("", ""))
  }

  /** Replaces the last function, the one the parsers keep open. */
  function WithLast(fs: seq<FunctionDoc>, f: FunctionDoc): (r: seq<FunctionDoc>)
    requires |fs| > 0
    ensures |r| == |fs| && r[|r| - 1] == f
    ensures forall k :: 0 <= k < |fs| - 1 ==> r[k] == fs[k]
  {
    fs[..|fs| - 1] + [f]
  }

  /** Putting the last function back in its place changes nothing. */
  lemma WithLastSame(fs: seq<FunctionDoc>)
    requires |fs| > 0
    ensures WithLast(fs, fs[|fs| - 1]) == fs
  {
  }
}
