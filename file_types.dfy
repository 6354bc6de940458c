/**
 * The extension tables of flatrepo: which extensions are binary, which
 * extensions name a language for the Markdown fences, and the Spanish
 * description given to a binary file in the output.
 */
module FileTypes {
  import opened Strings

  /** Extensions whose files are treated as binary. */
  const BinaryExtensions: set<string> := {
    ".jpg", ".jpeg", ".png", ".gif", ".bmp", ".ico", ".webp", ".svg", ".tiff",
    ".mp4", ".mov", ".avi", ".mkv", ".wmv", ".flv", ".webm",
    ".mp3", ".wav", ".ogg", ".m4a", ".flac", ".aac",
    ".pdf", ".doc", ".docx", ".xls", ".xlsx", ".ppt", ".pptx",
    ".zip", ".rar", ".7z", ".tar", ".gz",
    ".exe", ".dll", ".so", ".dylib",
    ".ttf", ".otf", ".woff", ".woff2", ".eot"
  }

  /** The fence language of a text file, by extension. */
  const ExtensionToLanguage: map<string, string> := map[
    ".js" := "javascript",
    ".jsx" := "jsx",
    ".ts" := "typescript",
    ".tsx" := "tsx",
    ".md" := "markdown",
    ".html" := "html",
    ".css" := "css",
    ".json" := "json"
  ]

  const Image := "imagen"
  const Video := "video"
  const Audio := "audio"
  const PdfDocument := "documento PDF"
  const WordDocument := "documento Word"
  const Spreadsheet := "hoja de c\U{E1}lculo Excel"
  const Presentation := "presentaci\U{F3}n PowerPoint"
  const Compressed := "archivo comprimido"
  const Typeface := "fuente tipogr\U{E1}fica"
  const WebFont := "fuente web"
  /** The description of a binary extension the type table does not list. */
  const GenericBinary := "archivo binario"

  const BinaryTypeMap: map<string, string> := map[
    ".jpg" := Image, ".jpeg" := Image, ".png" := Image, ".gif" := Image,
    ".bmp" := Image, ".ico" := Image, ".webp" := Image, ".svg" := Image,
    ".mp4" := Video, ".mov" := Video, ".avi" := Video, ".mkv" := Video,
    ".wmv" := Video, ".flv" := Video, ".webm" := Video,
    ".mp3" := Audio, ".wav" := Audio, ".ogg" := Audio, ".m4a" := Audio,
    ".flac" := Audio, ".aac" := Audio,
    ".pdf" := PdfDocument, ".doc" := WordDocument, ".docx" := WordDocument,
    ".xls" := Spreadsheet, ".xlsx" := Spreadsheet,
    ".ppt" := Presentation, ".pptx" := Presentation,
    ".zip" := Compressed, ".rar" := Compressed,
    ".7z" := Compressed, ".tar" := Compressed,
    ".gz" := Compressed,
    ".ttf" := Typeface, ".otf" := Typeface,
    ".woff" := WebFont, ".woff2" := WebFont, ".eot" := WebFont
  ]

  /** Every description `GetBinaryFileType` can return. */
  const Descriptions: set<string> := {
    Image, Video, Audio, PdfDocument, WordDocument, Spreadsheet,
    Presentation, Compressed, Typeface, WebFont, GenericBinary
  }

  predicate IsBinaryExtension(ext: string) {
    ext in BinaryExtensions
  }

  /** A table key: a dot followed by lower-case text. */
  predicate IsExtensionKey(k: string) {
    |k| >= 2 && k[0] == '.' && IsLower(k)
  }

  /** `getBinaryFileType`: the description of a binary extension, looked up
      case-insensitively among the table's own entries, with the generic
      description as fallback. */
  function GetBinaryFileType(ext: string): (r: string)
    ensures r in Descriptions
    ensures 1 <= |r| <= 23
    ensures r == GenericBinary <==> ToLower(ext) !in BinaryTypeMap
  {
    var k := ToLower(ext);
    if k in BinaryTypeMap then BinaryTypeMap[k] else GenericBinary
  }

  /** The lookup is case-insensitive: spellings that lower to the same text
      get the same description. */
  lemma GetBinaryFileTypeIgnoresCase(a: string, b: string)
    requires ToLower(a) == ToLower(b)
    ensures GetBinaryFileType(a) == GetBinaryFileType(b)
  {
  }

  /** `EXTENSION_TO_LANGUAGE[ext] || ""`: exact, case-sensitive lookup among
      the table's own entries; the empty string for any other extension. */
  function LanguageOf(ext: string): (r: string)
    ensures r == "" <==> ext !in ExtensionToLanguage
    ensures r != "" ==> r == ExtensionToLanguage[ext]
  {
    if ext in ExtensionToLanguage then ExtensionToLanguage[ext] else ""
  }

  /** Every key of the three tables is a lower-case extension with its dot. */
  lemma TableKeysWellFormed()
    ensures forall k | k in BinaryExtensions :: IsExtensionKey(k)
    ensures forall k | k in ExtensionToLanguage :: IsExtensionKey(k)
    ensures forall k | k in BinaryTypeMap :: IsExtensionKey(k)
  {
    BinaryKeysWellFormed();
    LanguageKeysWellFormed();
    TypeKeysWellFormed();
  }

  lemma LanguageKeysWellFormed()
    ensures forall k | k in ExtensionToLanguage :: IsExtensionKey(k)
  {
    LanguageKeys();
  }

  lemma TypeKeysWellFormed()
    ensures forall k | k in BinaryTypeMap :: IsExtensionKey(k)
  {
    TypeMapCoversBinaries();
    BinaryKeysWellFormed();
  }

  lemma BinaryKeysWellFormed()
    ensures forall k | k in BinaryExtensions :: IsExtensionKey(k)
  {
  }

  /** The type table only describes binary extensions. */
  lemma TypeMapCoversBinaries()
    ensures BinaryTypeMap.Keys <= BinaryExtensions
  {
  }

  /** No language extension is binary, so a file with a fence language is
      always read as text. */
  lemma LanguagesAreText()
    ensures forall k | k in ExtensionToLanguage :: k !in BinaryExtensions
  {
    LanguageKeys();
    ScriptsAreText();
    MarkupIsText();
  }

  lemma LanguageKeys()
    ensures ExtensionToLanguage.Keys == {".js", ".jsx", ".ts", ".tsx", ".md", ".html", ".css", ".json"}
  {
  }

  lemma ScriptsAreText()
    ensures ".js" !in BinaryExtensions && ".jsx" !in BinaryExtensions
    ensures ".ts" !in BinaryExtensions && ".tsx" !in BinaryExtensions
  {
  }

  lemma MarkupIsText()
    ensures ".md" !in BinaryExtensions && ".html" !in BinaryExtensions
    ensures ".css" !in BinaryExtensions && ".json" !in BinaryExtensions
  {
  }

  /** Five binary extensions have no description of their own and fall back
      to the generic one, whatever their case. */
  lemma UndescribedBinaries(ext: string)
    requires ToLower(ext) in {".tiff", ".exe", ".dll", ".so", ".dylib"}
    ensures IsBinaryExtension(ToLower(ext))
    ensures GetBinaryFileType(ext) == GenericBinary
  {
    UndescribedKeys();
  }

  lemma UndescribedKeys()
    ensures forall k | k in {".tiff", ".exe", ".dll", ".so", ".dylib"} :: k in BinaryExtensions && k !in BinaryTypeMap
  {
    UndescribedImage();
    UndescribedExecutables();
    UndescribedLibraries();
  }

  lemma UndescribedImage()
    ensures ".tiff" in BinaryExtensions && ".tiff" !in BinaryTypeMap
  {
  }

  lemma UndescribedExecutables()
    ensures ".exe" in BinaryExtensions && ".exe" !in BinaryTypeMap
    ensures ".dll" in BinaryExtensions && ".dll" !in BinaryTypeMap
  {
  }

  lemma UndescribedLibraries()
    ensures ".so" in BinaryExtensions && ".so" !in BinaryTypeMap
    ensures ".dylib" in BinaryExtensions && ".dylib" !in BinaryTypeMap
  {
  }
}
