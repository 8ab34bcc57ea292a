/** The collector's configuration (respond/config.go). */
module RespondConfig {

  datatype SiteConfig = SiteConfig(domains: seq<string>)

  /** One network interface the collector listens on. Empty strings stand
      for options left unset. */
  datatype InterfaceConfig = InterfaceConfig(
    interfaceName: string,
    ipAddress: string,
    sendNoRequest: bool,
    multicastAddress: string,
    port: int)

  /** The respond section; the enable flag, synchronisation and collection
      durations are not read by the modelled code and are left out. */
  datatype Config = Config(interfaces: seq<InterfaceConfig>, sites: map<string, SiteConfig>)

  /** The domains of every configured site, filled in one site at a time;
      the sites themselves are only read. */
  method SitesDomains(c: Config) returns (result: map<string, seq<string>>)
    ensures result.Keys == c.sites.Keys
    ensures forall site :: site in c.sites ==> result[site] == c.sites[site].domains
  {
    result := map[];
    var rest := c.sites.Keys;
    while rest != {}
      invariant rest <= c.sites.Keys
      invariant result.Keys == c.sites.Keys - rest
      invariant forall site :: site in result ==> result[site] == c.sites[site].domains
      decreases rest
    {
      var site :| site in rest;
      result := result[site := c.sites[site].domains];
      rest := rest - {site};
    }
  }
}
