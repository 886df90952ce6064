/** The rule catalog: each audit item ID names a crawl-export file and the
    calculation to run over it. */
module Catalog {

  /** The calculations the catalog names. Five of them have no
      implementation and always yield 0: `SitemapTimeoutErrors`,
      `LargeSitemapFiles`, `NonIndexableCanonical`, `MissingCanonicalUrls` and
      `ConflictingRobots`. So does `UrlsNotInSitemap`, whose implementation is
      a stub. */
  datatype Kind =
    | UrlsNotInSitemap | Non200InSitemap | NonIndexableInSitemap
    | MissingCanonical | CanonicalisedPages | CanonicalDifferentDomain
    | PagesWithNoindex | PagesWithNofollow | RobotsTxtBlocked
    | MissingPageTitles | DuplicatePageTitles | LongPageTitles | ShortPageTitles
    | MissingMetaDescriptions | DuplicateMetaDescriptions
    | LongMetaDescriptions | ShortMetaDescriptions
    | MissingH1 | DuplicateH1 | MultipleH1
    | ImagesMissingAlt | ImagesOver100kb | BrokenImages
    | Client4xxErrors | Server5xxErrors | Status404Count
    | RedirectChains | RedirectLoops | TemporaryRedirects
    | SitemapTimeoutErrors | LargeSitemapFiles
    | NonIndexableCanonical | MissingCanonicalUrls | ConflictingRobots
  {
    /** Whether the engine has a branch that computes something for it. */
    predicate Computed() {
      !(this in {UrlsNotInSitemap, SitemapTimeoutErrors, LargeSitemapFiles,
                 NonIndexableCanonical, MissingCanonicalUrls, ConflictingRobots})
    }
  }

  /** An entry of the catalog. */
  datatype Entry = Entry(file: string, calculation: Kind)

  const Internal := "internal_all.csv"
  const Sitemap := "sitemap_all.csv"
  const Canonicals := "canonical_all.csv"
  const Images := "images_all.csv"
  const Chains := "redirect_chains_all.csv"
  const Loops := "redirect_loops_all.csv"

  /** `item_mappings`: audit item ID to its file and calculation. */
  function ItemMappings(): map<string, Entry> {
    map[
      "106" := Entry(Internal, UrlsNotInSitemap),
      "107" := Entry(Sitemap, Non200InSitemap),
      "108" := Entry(Sitemap, NonIndexableInSitemap),
      "109" := Entry(Sitemap, SitemapTimeoutErrors),
      "110" := Entry(Sitemap, LargeSitemapFiles),
      "51" := Entry(Internal, MissingCanonical),
      "52" := Entry(Internal, CanonicalisedPages),
      "53" := Entry(Canonicals, NonIndexableCanonical),
      "54" := Entry(Internal, CanonicalDifferentDomain),
      "55" := Entry(Canonicals, MissingCanonicalUrls),
      "56" := Entry(Internal, PagesWithNoindex),
      "57" := Entry(Internal, PagesWithNofollow),
      "58" := Entry(Internal, ConflictingRobots),
      "59" := Entry(Internal, RobotsTxtBlocked),
      "1" := Entry(Internal, MissingPageTitles),
      "2" := Entry(Internal, DuplicatePageTitles),
      "3" := Entry(Internal, LongPageTitles),
      "4" := Entry(Internal, ShortPageTitles),
      "7" := Entry(Internal, MissingMetaDescriptions),
      "8" := Entry(Internal, DuplicateMetaDescriptions),
      "9" := Entry(Internal, LongMetaDescriptions),
      "10" := Entry(Internal, ShortMetaDescriptions),
      "13" := Entry(Internal, MissingH1),
      "14" := Entry(Internal, DuplicateH1),
      "15" := Entry(Internal, MultipleH1),
      "70" := Entry(Images, ImagesMissingAlt),
      "72" := Entry(Images, ImagesOver100kb),
      "130" := Entry(Images, BrokenImages),
      "63" := Entry(Internal, Client4xxErrors),
      "64" := Entry(Internal, Server5xxErrors),
      "65" := Entry(Internal, Status404Count),
      "18" := Entry(Chains, RedirectChains),
      "19" := Entry(Loops, RedirectLoops),
      "20" := Entry(Internal, TemporaryRedirects)
    ]
  }
}
