/** The record types of the pipeline (types.ts). */
module FiboTypes {
  import opened Wrappers

  /** A concept, entity or relationship found in the text, with its FIBO class and the
      snippet it was found in. */
  datatype FiboItem = FiboItem(name: string, fiboClass: string, description: string, context: string)

  /** A concrete value (an amount, a percentage, a date) mapped to a class of the custom
      Call Report ontology. */
  datatype FinancialDataItem =
    FinancialDataItem(name: string, value: string, ontologyClass: string, description: string, context: string)

  /** The result of the annotation: four lists. */
  datatype FiboData = FiboData(
    concepts: seq<FiboItem>,
    entities: seq<FiboItem>,
    relationships: seq<FiboItem>,
    financialData: seq<FinancialDataItem>)

  /** A `FiboData`-shaped object as JavaScript sees it at run time (a parsed model response,
      or the argument of the CSV export): any of its four lists may be missing. */
  datatype LooseFiboData = LooseFiboData(
    concepts: Option<seq<FiboItem>>,
    entities: Option<seq<FiboItem>>,
    relationships: Option<seq<FiboItem>>,
    financialData: Option<seq<FinancialDataItem>>)

  /** `xs || []`: a missing list counts as an empty one. */
  function OrEmpty<T>(xs: Option<seq<T>>): seq<T> {
    match xs
    case None => []
    case Some(l) => l
  }

  const NoFiboData: FiboData := FiboData([], [], [], [])
}
