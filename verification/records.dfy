/** The two records `DocumentationService` fills in while analysing an
    upload, as immutable values built once. */
module Records {

  /** `FileInfo`: one analysed source file with the class and method names
      found in it, in line-scan order. */
  datatype FileInfo = FileInfo(fileName: string, content: string, classes: seq<string>, methods: seq<string>)

  /** `ProjectInfo`: what the prompt is built from. `files` holds only the
      analysed source files, in upload order. */
  datatype ProjectInfo = ProjectInfo(
    projectName: string,
    projectDescription: string,
    projectStructure: string,
    files: seq<FileInfo>)
}
