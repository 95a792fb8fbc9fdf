/** The regular expressions of the analyzer, kept opaque.

    Every regex the analyzer applies is one constructor of a closed
    enumeration, or one field of `Lexer`, a bundle of functions that say what
    Python's `re` module answers.  Nothing here decides how a regex matches;
    the builders take a `Lexer` as a parameter and every property proved about
    them holds for every choice of it.  What is concrete is the order in which
    the analyzer tries the patterns and the label each one records. */
module Patterns {
  import opened Wrappers
  import opened Text

  /** The usage regexes, one constructor per distinct regex; each comment
      says in words what the regex looks for around the referenced name X. */
  datatype Usage =
    | Inheritance          // a colon, then X
    | InterfaceImpl        // a colon, later a comma, then X
    | FieldDecl            // an access modifier, X, then an identifier
    | FieldDeclLoose       // an access modifier, anything ending in X, then an identifier
    | GenericParam         // X between angle brackets
    | RefRW                // X as the argument of RefRW
    | RefRO                // X as the argument of RefRO
    | SystemApiCall        // a SystemAPI member with X inside its type arguments
    | Instantiation        // `new X` followed by a parenthesis or brace
    | StaticAccess         // X, a dot and an identifier
    | GetComponent         // X as the argument of GetComponent
    | HasComponent         // X as the argument of HasComponent
    | AddComponent         // AddComponent whose second argument is `new X(`, X a whole word
    | AddComponentLoose    // AddComponent whose second argument starts with `new X`
    | TypeOf               // typeof(X)
    | UpdateBeforeAttr     // the attribute UpdateBefore(typeof(X))
    | UpdateAfterAttr      // the attribute UpdateAfter(typeof(X))
    | UpdateBeforeLoose    // UpdateBefore, later X
    | UpdateAfterLoose     // UpdateAfter, later X
    | ParamOrVariable      // the word X, later an identifier and a parenthesis or semicolon
    | VariableOrField      // the word X, later an identifier and a semicolon or equals sign
    | SingletonAccess      // X as the argument of SystemAPI.GetSingleton
    | SystemLookup         // X as the argument of World.GetOrCreateSystem
    | GeneralRef           // the word X anywhere

  /** The description recorded when a usage regex matches. */
  function Label(u: Usage): string {
    match u
    case Inheritance => "inheritance"
    case InterfaceImpl => "interface implementation"
    case FieldDecl => "field declaration"
    case FieldDeclLoose => "field declaration"
    case GenericParam => "generic type parameter"
    case RefRW => "ECS component reference (RefRW)"
    case RefRO => "ECS component reference (RefRO)"
    case SystemApiCall => "SystemAPI call"
    case Instantiation => "object instantiation"
    case StaticAccess => "static member access"
    case GetComponent => "GetComponent call"
    case HasComponent => "HasComponent call"
    case AddComponent => "AddComponent call"
    case AddComponentLoose => "AddComponent call"
    case TypeOf => "typeof reference"
    case UpdateBeforeAttr => "UpdateBefore dependency"
    case UpdateAfterAttr => "UpdateAfter dependency"
    case UpdateBeforeLoose => "UpdateBefore dependency"
    case UpdateAfterLoose => "UpdateAfter dependency"
    case ParamOrVariable => "method parameter/variable"
    case VariableOrField => "variable/field reference"
    case SingletonAccess => "SystemAPI singleton access"
    case SystemLookup => "system reference"
    case GeneralRef => "general reference"
  }

  /** The class-mode catalog, in the order it is tried on each line. */
  const ClassCatalog: seq<Usage> := [
    Inheritance, InterfaceImpl, FieldDecl, FieldDeclLoose, GenericParam,
    RefRW, RefRO, SystemApiCall, Instantiation, StaticAccess,
    GetComponent, HasComponent, AddComponent, TypeOf, UpdateBeforeAttr,
    UpdateAfterAttr, UpdateBeforeLoose, UpdateAfterLoose, ParamOrVariable, GeneralRef
  ]

  /** The systems-mode catalog, in the order it is tried on each line. */
  const SystemCatalog: seq<Usage> := [
    UpdateBeforeAttr, UpdateAfterAttr, UpdateBeforeLoose, UpdateAfterLoose,
    SingletonAccess, SystemLookup, TypeOf, VariableOrField, GeneralRef
  ]

  /** The stricter patterns that count as a legitimate use of a class
      declared in the same file. */
  const LegitCatalog: seq<Usage> := [
    Instantiation, Inheritance, GenericParam, AddComponentLoose, TypeOf, FieldDecl, StaticAccess
  ]

  /** The four class-declaration regexes of the first class-mode pass. */
  datatype ClassDecl = AbstractClass | SealedClass | Struct | AnyClass

  const ClassDeclCatalog: seq<ClassDecl> := [AbstractClass, SealedClass, Struct, AnyClass]

  /** The three system-declaration regexes of the first systems-mode pass:
      a class or struct whose name contains `System`; a class or struct that
      lists `ISystem` after a colon; a struct that does. */
  datatype SystemDecl = NamedSystem | ImplementsISystem | StructImplementsISystem

  const SystemDeclCatalog: seq<SystemDecl> := [NamedSystem, ImplementsISystem, StructImplementsISystem]

  /** What Python's `re` module answers for each regex of the analyzer. */
  datatype Lexer = Lexer(
    // the first line of a unit that declares a namespace, and the dotted name it declares
    namespaceIn: string -> Option<string>,
    // the imported name when a (stripped) line is a `using` directive
    usingLine: string -> Option<string>,
    // every name imported by a `using` directive at the start of a line of a unit
    usingsIn: string -> seq<string>,
    // the declared name when a class-declaration regex is found on a line
    classDecl: (ClassDecl, string) -> Option<string>,
    // the line holds the word `class` or `struct` followed by an identifier
    typeDeclLine: string -> bool,
    // every name a system-declaration regex finds in a unit
    systemDecls: (SystemDecl, string) -> seq<string>,
    // the unit holds `class` or `struct` followed by the given name
    declares: (string, string) -> bool,
    // the line holds `class` or `struct`, the given name, then a colon, `<`, space or brace
    opensScope: (string, string) -> bool,
    // a usage regex about the given name is found on the line
    uses: (Usage, string, string) -> bool
  )

  /** The framework namespaces whose imports never count as custom
      dependencies: those starting with System, Unity or UnityEngine. */
  predicate IsFramework(ns: string) {
    StartsWith(ns, "System") || StartsWith(ns, "Unity") || StartsWith(ns, "UnityEngine")
  }

  /** The prefix test is on characters, not on namespace components:
      `UnityEngine` adds nothing to `Unity`, and a project namespace whose
      name merely begins with `System` or `Unity` (say `Systems.Combat`)
      counts as a framework namespace too. */
  lemma FrameworkByPrefix(ns: string, rest: string)
    ensures IsFramework(ns) <==> StartsWith(ns, "System") || StartsWith(ns, "Unity")
    ensures IsFramework("System" + rest) && IsFramework("Unity" + rest)
  {
    if StartsWith(ns, "UnityEngine") {
      assert ns[..5] == ns[..11][..5];
    }
    assert ("System" + rest)[..6] == "System";
    assert ("Unity" + rest)[..5] == "Unity";
  }
}
