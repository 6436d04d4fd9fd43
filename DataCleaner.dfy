/**
  `DataCleaner::parseCSV` of the native build. Its nested `getline` loops are the same
  code as `parseCSVInternal` of the WebAssembly build, so it is modelled by that one.
*/
module DataCleaner {
  import opened Tables
  import opened Tokeniser

  /** `DataCleaner::parseCSV`: rows of the non-empty lines, no row empty, no cell holding ',' or '\n'. */
  method ParseCSV(data: string) returns (result: Table)
    ensures result == ParseTable(data)
    ensures WellFormed(result)
  {
    result := ParseCSVInternal(data);
    ParsedWellFormed(data);
  }
}
