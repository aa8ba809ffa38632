/**
 * WebConfig: the static resource handler that serves the upload root under the public prefix,
 * so that a public directory written by saveAll can be fetched over HTTP.
 */
module WebConfig {
  import opened Wrappers
  import JavaText
  import UnixPaths
  import LocalFileStorageService

  type FileStorageProps = LocalFileStorageService.FileStorageProps

  /** One registration: the URL pattern, the directory behind it and the cache period. */
  datatype ResourceHandler = ResourceHandler(pattern: string, location: UnixPaths.Path, cachePeriodSeconds: int)

  /** InvalidPathException from Paths.get(uploadRoot), or a NullPointerException from a null
      publicBase (unlike saveAll, there is no fallback here). */
  datatype ConfigError = InvalidUploadRoot | NullPublicBase

  const CachePeriodSeconds := 3600

  /** addResourceHandlers. */
  function AddResourceHandlers(props: FileStorageProps): (r: Result<ResourceHandler, ConfigError>)
    requires LocalFileStorageService.IsValidProps(props)
    ensures r == Err(InvalidUploadRoot) <==> '\0' in props.uploadRoot
    ensures r == Err(NullPublicBase) <==> '\0' !in props.uploadRoot && props.publicBase.None?
    ensures r.Ok? ==>
              r.value.cachePeriodSeconds == CachePeriodSeconds
              && r.value.location.absolute
              && r.value.pattern == LocalFileStorageService.WithoutOneTrailingSlash(
                                      LocalFileStorageService.WithLeadingSlash(props.publicBase.value)) + "/**"
  {
    match UnixPaths.Parse(props.uploadRoot)
    case Err(_) => Err(InvalidUploadRoot)
    case Ok(root) =>
      if props.publicBase.None? then Err(NullPublicBase)
      else
        var base := LocalFileStorageService.WithoutOneTrailingSlash(
                      LocalFileStorageService.WithLeadingSlash(props.publicBase.value));
        Ok(ResourceHandler(base + "/**", UnixPaths.ToAbsolute(root, props.workingDir), CachePeriodSeconds))
  }

  /** With a non-blank prefix, every public directory saveAll records lies under the handler's
      pattern, and the handler's directory is the upload root saveAll writes into. */
  lemma HandlerServesPublicDirs(props: FileStorageProps, parts: seq<string>)
    requires LocalFileStorageService.IsValidProps(props)
    requires '\0' !in props.uploadRoot && !JavaText.IsNullOrBlank(props.publicBase)
    ensures AddResourceHandlers(props).Ok?
    ensures var h := AddResourceHandlers(props).value;
            h.pattern == LocalFileStorageService.PublicBase(props) + "/**"
            && JavaText.StartsWith(LocalFileStorageService.BuildPublicDir(props, parts),
                                   LocalFileStorageService.PublicBase(props) + "/")
            && UnixPaths.Normalize(h.location) == LocalFileStorageService.Root(props).value
  {
    var base := LocalFileStorageService.PublicBase(props);
    var x := JavaText.StripLeadingSlashes(JavaText.JoinWith(parts, '/'));
    assert LocalFileStorageService.BuildPublicDir(props, parts) == (base + "/") + x;
  }

  /** With a blank but non-null prefix the two disagree: the handler serves everything under
      "/" while saveAll records directories under "/upload". */
  lemma BlankPublicBaseDisagrees(props: FileStorageProps)
    requires LocalFileStorageService.IsValidProps(props)
    requires '\0' !in props.uploadRoot && props.publicBase == Some("")
    ensures AddResourceHandlers(props).Ok? && AddResourceHandlers(props).value.pattern == "/**"
    ensures LocalFileStorageService.PublicBase(props) == "/upload"
  {
    assert LocalFileStorageService.WithLeadingSlash("") == "/";
    assert "/"[..0] == "";
  }
}
